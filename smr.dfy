/**
 * examples/state_machine_replication.rs: a key-value state machine, and
 * replicas that append commands to a log and apply the committed prefix
 * in order.
 *
 * Counters are `i64` in the source and `+=` on them would overflow only
 * past 2^63; they are unbounded integers here. `Response::Value` carries
 * the counter's decimal text; here it carries the number. `snapshot` and
 * `restore` only format and print, and the printed trace is not modelled.
 */
module StateMachineReplication {
  /** `Command`. */
  datatype Command =
    | Set(key: string, value: string)
    | Delete(key: string)
    | Increment(key: string, amount: int)

  /** `Response`. */
  datatype Response = Ok | Value(n: int) | Error(message: string)

  /** `LogEntry`. */
  datatype LogEntry = LogEntry(index: nat, term: nat, command: Command)

  /** The state of `KVStateMachine`: the string map and the separate counter map. */
  datatype KV = KV(data: map<string, string>, counters: map<string, int>)

  /** `KVStateMachine::new()`. */
  const Empty: KV := KV(map[], map[])

  /** A counter's value; an absent counter counts as 0 (`or_insert(0)`). */
  function Counter(kv: KV, key: string): int
  {
    if key in kv.counters then kv.counters[key] else 0
  }

  /** `apply(command)`: the new state and the response. */
  function Step(kv: KV, c: Command): (KV, Response)
  {
    match c
    case Set(k, v) => (KV(kv.data[k := v], kv.counters), Ok)
    case Delete(k) =>
      if k in kv.data then (KV(kv.data - {k}, kv.counters), Ok)
      else (kv, Error("Key not found"))
    case Increment(k, a) =>
      var n := Counter(kv, k) + a;
      (KV(kv.data, kv.counters[k := n]), Value(n))
  }

  /**
   * What each command does, in terms of the two maps: `Set` and `Delete`
   * touch only the string map, `Increment` only the counter map, and
   * `Delete` of an absent key is an error that changes nothing.
   */
  lemma StepEffects(kv: KV, c: Command)
    ensures c.Set? ==> Step(kv, c).0.data[c.key] == c.value && Step(kv, c).1 == Ok
    ensures c.Delete? ==> c.key !in Step(kv, c).0.data && (Step(kv, c).1 == Ok <==> c.key in kv.data)
    ensures c.Delete? && c.key !in kv.data ==> Step(kv, c) == (kv, Error("Key not found"))
    ensures c.Increment? ==> Counter(Step(kv, c).0, c.key) == Counter(kv, c.key) + c.amount &&
                             Step(kv, c).1 == Value(Counter(Step(kv, c).0, c.key))
    ensures !c.Increment? ==> Step(kv, c).0.counters == kv.counters
    ensures c.Increment? ==> Step(kv, c).0.data == kv.data
    ensures forall k :: k != c.key ==> (k in Step(kv, c).0.data <==> k in kv.data) && Counter(Step(kv, c).0, k) == Counter(kv, k)
  {
  }

  /** Commands on different keys commute. */
  lemma StepsCommute(kv: KV, c: Command, d: Command)
    requires c.key != d.key
    ensures Step(Step(kv, c).0, d).0 == Step(Step(kv, d).0, c).0
  {
    match c
    case Set(_, _) => CommuteWithSet(kv, c, d);
    case Delete(_) => CommuteWithDelete(kv, c, d);
    case Increment(_, _) => CommuteWithIncrement(kv, c, d);
  }

  lemma CommuteWithSet(kv: KV, c: Command, d: Command)
    requires c.Set? && c.key != d.key
    ensures Step(Step(kv, c).0, d).0 == Step(Step(kv, d).0, c).0
  {
    if d.Delete? {
      assert (kv.data[c.key := c.value] - {d.key}) == (kv.data - {d.key})[c.key := c.value];
    } else if d.Set? {
      assert kv.data[c.key := c.value][d.key := d.value] == kv.data[d.key := d.value][c.key := c.value];
    }
  }

  lemma CommuteWithDelete(kv: KV, c: Command, d: Command)
    requires c.Delete? && c.key != d.key
    ensures Step(Step(kv, c).0, d).0 == Step(Step(kv, d).0, c).0
  {
    if d.Set? {
      CommuteWithSet(kv, d, c);
    } else if d.Delete? {
      assert kv.data - {c.key} - {d.key} == kv.data - {d.key} - {c.key};
    }
  }

  lemma CommuteWithIncrement(kv: KV, c: Command, d: Command)
    requires c.Increment? && c.key != d.key
    ensures Step(Step(kv, c).0, d).0 == Step(Step(kv, d).0, c).0
  {
    if d.Increment? {
      assert kv.counters[c.key := Counter(kv, c.key) + c.amount][d.key := Counter(kv, d.key) + d.amount] ==
             kv.counters[d.key := Counter(kv, d.key) + d.amount][c.key := Counter(kv, c.key) + c.amount];
    }
  }

  /** The state after applying each command in turn. */
  function Run(kv: KV, cs: seq<Command>): KV
    decreases |cs|
  {
    if cs == [] then kv else Step(Run(kv, cs[..|cs| - 1]), cs[|cs| - 1]).0
  }

  /** Applying a log in two parts is applying it whole. */
  lemma {:induction false} RunAppend(kv: KV, a: seq<Command>, b: seq<Command>)
    ensures Run(kv, a + b) == Run(Run(kv, a), b)
    decreases |b|
  {
    if b == [] {
      assert a + b == a;
    } else {
      assert (a + b)[..|a + b| - 1] == a + b[..|b| - 1];
      RunAppend(kv, a, b[..|b| - 1]);
    }
  }

  /** The amounts of the increments of `key` among `cs`, added up. */
  function IncrementsOf(cs: seq<Command>, key: string): int
    decreases |cs|
  {
    if cs == [] then 0
    else IncrementsOf(cs[..|cs| - 1], key) +
         (if cs[|cs| - 1].Increment? && cs[|cs| - 1].key == key then cs[|cs| - 1].amount else 0)
  }

  /** A counter ends at its start plus every amount added to it, whatever else the log does. */
  lemma {:induction false} CounterIsSum(kv: KV, cs: seq<Command>, key: string)
    ensures Counter(Run(kv, cs), key) == Counter(kv, key) + IncrementsOf(cs, key)
    decreases |cs|
  {
    if cs != [] {
      CounterIsSum(kv, cs[..|cs| - 1], key);
      StepEffects(Run(kv, cs[..|cs| - 1]), cs[|cs| - 1]);
    }
  }

  /** The commands of a run of log entries. */
  function Commands(entries: seq<LogEntry>): (r: seq<Command>)
    ensures |r| == |entries|
    ensures forall i :: 0 <= i < |entries| ==> r[i] == entries[i].command
  {
    seq(|entries|, i requires 0 <= i < |entries| => entries[i].command)
  }

  function Min(a: nat, b: nat): nat { if a <= b then a else b }

  function Max(a: nat, b: nat): nat { if a >= b then a else b }

  /**
   * The entries the apply loop reaches when it moves `last_applied` from
   * `from` up to `to`: positions `from .. to - 1` that the log holds.
   */
  function Window(log: seq<LogEntry>, from: nat, to: nat): seq<LogEntry>
  {
    if from >= to then [] else log[Min(from, |log|)..Min(to, |log|)]
  }

  /** Moving `last_applied` up by one adds the entry at the old position, if the log holds it. */
  lemma WindowSnoc(log: seq<LogEntry>, from: nat, to: nat)
    requires from <= to
    ensures to < |log| ==> Commands(Window(log, from, to + 1)) == Commands(Window(log, from, to)) + [log[to].command]
    ensures to >= |log| ==> Window(log, from, to + 1) == Window(log, from, to)
  {
    if to < |log| {
      assert Window(log, from, to + 1) == Window(log, from, to) + [log[to]];
    }
  }

  /** The commands of a log's first `n` entries, taken as two windows, are the first `n` commands. */
  lemma CommandsSplit(log: seq<LogEntry>, m: nat, n: nat)
    requires m <= n <= |log|
    ensures Commands(log[..m]) + Commands(Window(log, m, n)) == Commands(log[..n])
  {
  }

  /** `KVStateMachine`. */
  class KVStateMachine {
    var data: map<string, string>
    var counters: map<string, int>

    function State(): KV
      reads this
    {
      KV(data, counters)
    }

    /** `KVStateMachine::new()`. */
    constructor ()
      ensures State() == Empty
    {
      data := map[];
      counters := map[];
    }

    /** `apply(command)`. */
    method Apply(c: Command) returns (r: Response)
      modifies this
      ensures (State(), r) == Step(old(State()), c)
    {
      match c
      case Set(k, v) =>
        data := data[k := v];
        r := Ok;
      case Delete(k) =>
        if k in data {
          data := data - {k};
          r := Ok;
        } else {
          r := Error("Key not found");
        }
      case Increment(k, a) =>
        var n := if k in counters then counters[k] else 0;
        n := n + a;
        counters := counters[k := n];
        r := Value(n);
    }
  }

  /** `Replica`. */
  class Replica {
    const id: string
    const stateMachine: KVStateMachine
    var log: seq<LogEntry>
    var commitIndex: nat
    var lastApplied: nat
    /** The commands applied so far, in order. */
    ghost var applied: seq<Command>

    /** The state machine holds what applying `applied` to an empty store gives. */
    ghost predicate Valid()
      reads this, stateMachine
    {
      stateMachine.State() == Run(Empty, applied)
    }

    /** Every applied command is the log's, in log order, and no position was passed over. */
    ghost predicate InSync()
      reads this
    {
      lastApplied <= |log| && applied == Commands(log[..lastApplied])
    }

    /** `Replica::new(id)`: an empty store and log. */
    constructor (id: string)
      ensures Valid() && InSync() && fresh(stateMachine)
      ensures this.id == id && log == [] && commitIndex == 0 && lastApplied == 0
    {
      this.id := id;
      stateMachine := new KVStateMachine();
      log := [];
      commitIndex := 0;
      lastApplied := 0;
      applied := [];
    }

    /** `append_log_entry`: the entry goes at the end of the log. */
    method AppendLogEntry(entry: LogEntry)
      requires Valid()
      modifies this
      ensures Valid()
      ensures log == old(log) + [entry]
      ensures commitIndex == old(commitIndex) && lastApplied == old(lastApplied) && applied == old(applied)
      ensures old(InSync()) ==> InSync()
    {
      if lastApplied <= |log| {
        assert (log + [entry])[..lastApplied] == log[..lastApplied];
      }
      log := log + [entry];
    }

    /**
     * `apply_committed_entries`: `last_applied` climbs to `commit_index`,
     * and each position it passes is applied if the log holds it.
     */
    method ApplyCommittedEntries()
      requires Valid()
      modifies this, stateMachine
      ensures Valid()
      ensures lastApplied == Max(old(lastApplied), commitIndex)
      ensures applied == old(applied) + Commands(Window(log, old(lastApplied), commitIndex))
      ensures log == old(log) && commitIndex == old(commitIndex)
    {
      if lastApplied < commitIndex {
        ghost var start := lastApplied;
        while lastApplied < commitIndex
          invariant start <= lastApplied <= commitIndex
          invariant Valid()
          invariant applied == old(applied) + Commands(Window(log, start, lastApplied))
          invariant log == old(log) && commitIndex == old(commitIndex)
        {
          WindowSnoc(log, start, lastApplied);
          ApplyNext();
        }
      }
    }

    /** One turn of the apply loop: the next position is passed, and applied if the log holds it. */
    method ApplyNext()
      requires Valid()
      modifies this, stateMachine
      ensures Valid()
      ensures lastApplied == old(lastApplied) + 1 && log == old(log) && commitIndex == old(commitIndex)
      ensures applied == old(applied) + if old(lastApplied) < |log| then [log[old(lastApplied)].command] else []
    {
      if lastApplied < |log| {
        var entry := log[lastApplied];
        var _ := stateMachine.Apply(entry.command);
        RunAppend(Empty, applied, [entry.command]);
        applied := applied + [entry.command];
      }
      lastApplied := lastApplied + 1;
    }

    /**
     * `update_commit_index`: only a larger index is taken, and then the
     * newly committed entries are applied. When the log holds every
     * committed position the replica stays in step with its log.
     */
    method UpdateCommitIndex(newCommitIndex: nat)
      requires Valid()
      modifies this, stateMachine
      ensures Valid()
      ensures commitIndex == Max(old(commitIndex), newCommitIndex)
      ensures commitIndex >= old(commitIndex) && log == old(log)
      ensures newCommitIndex <= old(commitIndex) ==> lastApplied == old(lastApplied) && applied == old(applied)
      ensures newCommitIndex > old(commitIndex) ==>
        lastApplied == Max(old(lastApplied), newCommitIndex) &&
        applied == old(applied) + Commands(Window(log, old(lastApplied), newCommitIndex))
      ensures old(InSync()) && old(lastApplied) == old(commitIndex) && newCommitIndex <= |log| ==> InSync()
    {
      if newCommitIndex > commitIndex {
        commitIndex := newCommitIndex;
        ApplyCommittedEntries();
        if old(InSync()) && old(lastApplied) == old(commitIndex) && newCommitIndex <= |log| {
          CommandsSplit(log, old(lastApplied), newCommitIndex);
        }
      }
    }
  }

  /**
   * A fresh replica fed commands one at a time, each appended and then
   * committed, applies exactly those commands in order.
   */
  method FeedReplica(id: string, cmds: seq<Command>) returns (state: KV)
    ensures state == Run(Empty, cmds)
  {
    var r := new Replica(id);
    var index := 0;
    while index < |cmds|
      invariant 0 <= index <= |cmds|
      invariant r.Valid() && r.InSync() && fresh(r.stateMachine)
      invariant |r.log| == index && Commands(r.log) == cmds[..index]
      invariant r.lastApplied == r.commitIndex == index
    {
      r.AppendLogEntry(LogEntry(index + 1, 1, cmds[index]));
      assert Commands(r.log) == cmds[..index + 1];
      r.UpdateCommitIndex(index + 1);
      index := index + 1;
    }
    assert r.log[..index] == r.log;
    assert cmds[..index] == cmds;
    state := r.stateMachine.State();
  }

  /**
   * Scenario 4 of the demo: three fresh replicas each append and commit
   * `Set x 10`, `Increment x 5` and `Increment x -3` one by one. They end
   * in one state: "x" still maps to "10" and the counter "x" is 2. The
   * replicas share nothing, so feeding them one after the other is feeding
   * them in the demo's interleaving.
   */
  method DeterministicExecution() returns (states: seq<KV>)
    ensures |states| == 3
    ensures forall i :: 0 <= i < 3 ==> states[i] == KV(map["x" := "10"], map["x" := 2])
  {
    var cmds := [Set("x", "10"), Increment("x", 5), Increment("x", -3)];
    var s0 := FeedReplica("test-1", cmds);
    var s1 := FeedReplica("test-2", cmds);
    var s2 := FeedReplica("test-3", cmds);
    assert cmds[..2][..1] == cmds[..1] && cmds[..1][..0] == [];
    assert Run(Empty, cmds[..1]) == KV(map["x" := "10"], map[]);
    assert Run(Empty, cmds[..2]) == KV(map["x" := "10"], map["x" := 5]);
    assert Run(Empty, cmds) == KV(map["x" := "10"], map["x" := 2]);
    states := [s0, s1, s2];
  }

  /**
   * A commit index raised past the end of the log moves `last_applied`
   * with it, so an entry appended later at a position below it is never
   * applied: after committing index 1 on an empty log and then appending
   * one entry, the log holds a committed entry the store does not reflect.
   */
  method CommitBeforeAppend(entry: LogEntry) returns (log: seq<LogEntry>, commitIndex: nat, state: KV)
    ensures log == [entry] && commitIndex == 1
    ensures state == Empty
  {
    var r := new Replica("replica");
    r.UpdateCommitIndex(1);
    r.AppendLogEntry(entry);
    r.UpdateCommitIndex(1);
    log, commitIndex, state := r.log, r.commitIndex, r.stateMachine.State();
  }
}
