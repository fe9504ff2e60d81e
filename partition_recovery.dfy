/**
 * The partition-recovery demonstration of
 * examples/consensus_group_partition_recovery.rs: the nodes of a
 * consensus group each keep a hybrid logical clock driven by a skewed wall
 * clock and a replica of the lease-state CRDT; a request is put to every
 * node, and when a majority grants it all pairs of nodes exchange clocks
 * and replicas.
 *
 * Every clock read in one step sees the same true time `realMs`, shifted
 * by the reading node's skew. The identifiers `LeaseId::new()` generates
 * are parameters. Refusals are kept as the holder information the source
 * formats into its messages.
 *
 * What a sync achieves is proved through what each replica knows: every
 * scope it holds, and every timestamp its register for a scope has
 * reached (`Fact`). A merge is a union of these facts, so the all-to-all
 * sync leaves every replica knowing all of them.
 */
module PartitionRecovery {
  import opened Wrappers
  import opened Hlc
  import opened CrdtBase
  import opened Leases
  import opened LeaseCrdt
  import opened LwwRegister
  import LeaseSkew
  import ConsensusBasics

  /** What a node brings to a request: its name, its wall reading, its clock and its replica. */
  datatype NodeView = NodeView(id: ActorId, wall: nat, clock: ClockState, table: Table)

  /** The time the node's clock reads for the request. */
  function NowOf(v: NodeView): Timestamp
  {
    Stamp(NextNow(v.clock, v.wall))
  }

  /** The lease the node refuses a request for `scope` with: one its replica knows to be valid then, if any. */
  function RefusalOf(v: NodeView, scope: LeaseScope): Option<LeaseInfo>
  {
    ValidAt(v.table, scope, NowOf(v))
  }

  /** The node's replica after the request: unchanged on a refusal, otherwise granting the scope to the node itself. */
  function OutcomeOf(v: NodeView, scope: LeaseScope, durationMs: nat, leaseId: LeaseId): (r: Table)
    ensures r.Keys == v.table.Keys + {scope}
    ensures RefusalOf(v, scope).Some? ==> r == v.table
  {
    if RefusalOf(v, scope).None? then
      Granted(v.table, scope, v.id, leaseId, NowOf(v), LeaseSkew.ExpiryOf(NowOf(v), durationMs))
    else v.table
  }

  /**
   * The refusals a request for `scope` meets when put to nodes showing
   * `vs`, in order, with the name of each refusing node.
   */
  function RefusalsOf(vs: seq<NodeView>, scope: LeaseScope): (r: seq<(ActorId, LeaseInfo)>)
    ensures |r| <= |vs|
  {
    if vs == [] then []
    else
      var last := vs[|vs| - 1];
      RefusalsOf(vs[..|vs| - 1], scope) +
      match RefusalOf(last, scope)
      case Some(info) => [(last.id, info)]
      case None => []
  }

  /** The replicas of nodes showing `vs` after each is asked for `scope` with its own lease identifier. */
  function Outcomes(vs: seq<NodeView>, scope: LeaseScope, durationMs: nat, leaseIds: seq<LeaseId>): (r: seq<Table>)
    requires |leaseIds| == |vs|
    ensures |r| == |vs|
  {
    if vs == [] then []
    else Outcomes(vs[..|vs| - 1], scope, durationMs, leaseIds[..|vs| - 1]) +
         [OutcomeOf(vs[|vs| - 1], scope, durationMs, leaseIds[|vs| - 1])]
  }

  /** Replicas holding the outcome of each node's request are the outcomes. */
  lemma OutcomesAre(ts: seq<Table>, vs: seq<NodeView>, scope: LeaseScope, durationMs: nat, leaseIds: seq<LeaseId>)
    requires |ts| == |vs| == |leaseIds|
    requires forall k :: 0 <= k < |ts| ==> ts[k] == OutcomeOf(vs[k], scope, durationMs, leaseIds[k])
    ensures ts == Outcomes(vs, scope, durationMs, leaseIds)
  {
    if ts != [] {
      var n := |ts| - 1;
      OutcomesAre(ts[..n], vs[..n], scope, durationMs, leaseIds[..n]);
      assert ts == ts[..n] + [ts[n]];
    }
  }

  /** A node of the group. */
  class CGNode {
    const id: ActorId
    const hlc: Clock
    const leaseCrdt: LeaseStateCRDT
    const clockSkewMs: int

    /** `CGNode::new`: a fresh clock at zero under the given skew and an empty replica. */
    constructor (id: ActorId, clockSkewMs: int)
      ensures this.id == id && this.clockSkewMs == clockSkewMs
      ensures fresh(hlc) && fresh(leaseCrdt) && hlc.State() == ClockState(0, 0) && leaseCrdt.leases == map[]
    {
      this.id := id;
      this.clockSkewMs := clockSkewMs;
      hlc := new Clock();
      leaseCrdt := new LeaseStateCRDT(id);
    }

    /** The skewed wall clock can be read at `realMs` without going below zero. */
    predicate CanRead(realMs: nat)
    {
      clockSkewMs >= 0 || realMs >= -clockSkewMs
    }

    /** What this node's wall clock reads at `realMs`. */
    function Wall(realMs: nat): nat
      requires CanRead(realMs)
    {
      LeaseSkew.SkewedReading(realMs, clockSkewMs)
    }

    /** What this node shows a request at `realMs`: its name, wall reading, clock and replica. */
    ghost function View(realMs: nat): NodeView
      requires CanRead(realMs)
      reads hlc, leaseCrdt
    {
      NodeView(id, Wall(realMs), hlc.State(), leaseCrdt.leases)
    }

    /**
     * `request_lease`: the node reads its clock; if its replica knows a
     * lease still valid then, the request is refused with that lease;
     * otherwise the node grants the scope to itself from now for the
     * duration.
     */
    method RequestLease(scope: LeaseScope, durationMs: nat, realMs: nat, leaseId: LeaseId) returns (r: Result<(), LeaseInfo>)
      requires CanRead(realMs)
      modifies hlc, leaseCrdt
      ensures hlc.State() == NextNow(old(hlc.State()), Wall(realMs))
      ensures r.Ok? <==> RefusalOf(old(View(realMs)), scope).None?
      ensures r.Err? ==> Some(r.error) == RefusalOf(old(View(realMs)), scope)
      ensures leaseCrdt.leases == OutcomeOf(old(View(realMs)), scope, durationMs, leaseId)
      ensures scope in leaseCrdt.leases && leaseCrdt.leases.Keys == old(leaseCrdt.leases.Keys) + {scope}
    {
      var now := hlc.Now(Wall(realMs));
      var expiresAt := Timestamp(now.physical + durationMs, 0);
      var info := leaseCrdt.IsLeaseValid(scope, now);
      if info.Some? {
        return Err(info.value);
      }
      var granted := leaseCrdt.GrantLease(scope, id, now, expiresAt, leaseId);
      r := Ok(());
    }

    /**
     * `sync_with`: both nodes read their clocks and each takes in the
     * other's reading; then each replica merges the copy of the other
     * taken before either merge, so both end knowing every scope of either.
     */
    method SyncWith(other: CGNode, realMs: nat)
      requires CanRead(realMs) && other.CanRead(realMs)
      requires hlc != other.hlc && leaseCrdt != other.leaseCrdt
      modifies hlc, other.hlc, leaseCrdt, other.leaseCrdt
      ensures leaseCrdt.leases == MergedTable(old(leaseCrdt.leases), old(other.leaseCrdt.leases))
      ensures other.leaseCrdt.leases == MergedTable(old(other.leaseCrdt.leases), old(leaseCrdt.leases))
      ensures leaseCrdt.leases.Keys == other.leaseCrdt.leases.Keys == old(leaseCrdt.leases.Keys + other.leaseCrdt.leases.Keys)
      ensures hlc.State() == StateAfterUpdate(NextNow(old(hlc.State()), Wall(realMs)), NowOf(old(other.View(realMs))), Wall(realMs))
      ensures other.hlc.State() == StateAfterUpdate(NextNow(old(other.hlc.State()), other.Wall(realMs)), NowOf(old(View(realMs))), other.Wall(realMs))
    {
      var myTs := hlc.Now(Wall(realMs));
      var otherTs := other.hlc.Now(other.Wall(realMs));
      var ignored := hlc.Update(otherTs, Wall(realMs));
      ignored := other.hlc.Update(myTs, other.Wall(realMs));
      var myCrdt := leaseCrdt.leases;
      var otherCrdt := other.leaseCrdt.leases;
      leaseCrdt.MergeFrom(otherCrdt);
      other.leaseCrdt.MergeFrom(myCrdt);
      MergedKeys(myCrdt, otherCrdt);
      MergedKeys(otherCrdt, myCrdt);
    }
  }

  /** The scopes of a merged replica are those of both sides. */
  lemma MergedKeys(a: Table, b: Table)
    ensures MergedTable(a, b).Keys == a.Keys + b.Keys
  {
  }

  /**
   * Two nodes that grant the same scope to themselves at the same clock
   * time keep different holders after they sync: a merge keeps the
   * receiver's entry on a timestamp tie, so each replica keeps its own.
   */
  lemma TiedGrantsStayApart(scope: LeaseScope, a: ActorId, b: ActorId, ida: LeaseId, idb: LeaseId, granted: Timestamp, expires: Timestamp)
    requires a != b
    ensures var ta := Granted(map[], scope, a, ida, granted, expires);
            var tb := Granted(map[], scope, b, idb, granted, expires);
            MergedTable(ta, tb)[scope].value.value.holder == a && MergedTable(tb, ta)[scope].value.value.holder == b
  {
    var ta := Granted(map[], scope, a, ida, granted, expires);
    var tb := Granted(map[], scope, b, idb, granted, expires);
    MergedEffect(ta, tb, scope);
    MergedEffect(tb, ta, scope);
  }

  /**
   * The timestamp order extended to registers' timestamps, an empty
   * register (`None`) lowest.
   */
  predicate StampLe(a: Option<Timestamp>, b: Option<Timestamp>)
  {
    a.None? || (b.Some? && LessEq(a.value, b.value))
  }

  /** The timestamp a replica holds for `s`, `None` when it holds no entry. */
  function StampOf(t: Table, s: LeaseScope): Option<Timestamp>
  {
    TimestampOf(RegOf(t, s))
  }

  /**
   * A known scope, paired with `None` for "the scope is known" or with a
   * timestamp the replica's register for it has reached.
   */
  type Fact = (LeaseScope, Option<Timestamp>)

  /** The facts the replicas `ts` give rise to: every scope they know, and every timestamp one of them holds for it. */
  function Facts(ts: seq<Table>): set<Fact>
  {
    (set k, s | 0 <= k < |ts| && s in ts[k] :: (s, None)) +
    (set k, s | 0 <= k < |ts| && s in ts[k] :: (s, StampOf(ts[k], s)))
  }

  /** The facts of `V` replica `t` knows: the scope is in `t` and its register is at least that recent. */
  function Know(t: Table, V: set<Fact>): set<Fact>
  {
    set p | p in V && p.0 in t && StampLe(p.1, StampOf(t, p.0))
  }

  /** The facts of `V` each replica of `ts` knows. */
  function Knows(ts: seq<Table>, V: set<Fact>): (r: seq<set<Fact>>)
    ensures |r| == |ts| && forall k :: 0 <= k < |ts| ==> r[k] == Know(ts[k], V)
  {
    if ts == [] then [] else Knows(ts[..|ts| - 1], V) + [Know(ts[|ts| - 1], V)]
  }

  /** The registers the replicas `ts` hold for `s`. */
  function Offered(ts: seq<Table>, s: LeaseScope): set<Register<LeaseEntry>>
  {
    set k | 0 <= k < |ts| && s in ts[k] :: ts[k][s]
  }

  /** Every register of `ts` is one some replica of `t0` held for the same scope. */
  predicate Origins(t0: seq<Table>, ts: seq<Table>)
  {
    forall k, s :: 0 <= k < |ts| && s in ts[k] ==> ts[k][s] in Offered(t0, s)
  }

  /**
   * The replicas `ts` have converged from `t0`: each knows every scope any
   * replica of `t0` knew, with a timestamp no older than any of them held,
   * and holds only registers some replica of `t0` held.
   */
  predicate Converged(t0: seq<Table>, ts: seq<Table>)
  {
    |ts| == |t0| &&
    (forall k, k', s :: 0 <= k < |ts| && 0 <= k' < |t0| && s in t0[k'] ==>
       s in ts[k] && StampLe(StampOf(t0[k'], s), StampOf(ts[k], s))) &&
    Origins(t0, ts)
  }

  /** `r` is the one register of `ts` for `s` with the latest timestamp: every other one is strictly older. */
  predicate SoleLatest(ts: seq<Table>, s: LeaseScope, r: Register<LeaseEntry>)
  {
    r in Offered(ts, s) &&
    forall r' :: r' in Offered(ts, s) && r' != r ==> !StampLe(TimestampOf(r), TimestampOf(r'))
  }

  /** The timestamp a merge keeps is the later of the two: it is at least `e` exactly when one side is. */
  lemma JoinedStamp(r: Register<LeaseEntry>, o: Register<LeaseEntry>, e: Option<Timestamp>)
    ensures StampLe(e, TimestampOf(Joined(r, o))) <==> StampLe(e, TimestampOf(r)) || StampLe(e, TimestampOf(o))
  {
    JoinOutcome(r, o);
    if e.Some? && r.Some? && o.Some? {
      OrderIsStrictTotal(e.value, r.value.timestamp, o.value.timestamp);
      OrderIsStrictTotal(e.value, o.value.timestamp, r.value.timestamp);
      OrderIsStrictTotal(r.value.timestamp, o.value.timestamp, e.value);
    }
  }

  /** A merged replica knows exactly the facts either side knew: merging is union on facts. */
  lemma {:induction false} KnowMerged(a: Table, b: Table, V: set<Fact>)
    ensures Know(MergedTable(a, b), V) == Know(a, V) + Know(b, V)
  {
    forall p | p in V
      ensures p in Know(MergedTable(a, b), V) <==> p in Know(a, V) || p in Know(b, V)
    {
      MergedEffect(a, b, p.0);
      JoinedStamp(RegOf(a, p.0), RegOf(b, p.0), p.1);
    }
  }

  /** A merged replica holds, under each scope, the register one of the two sides held. */
  lemma MergedPicks(a: Table, b: Table, s: LeaseScope)
    requires s in MergedTable(a, b)
    ensures (s in a && MergedTable(a, b)[s] == a[s]) || (s in b && MergedTable(a, b)[s] == b[s])
  {
    MergedEffect(a, b, s);
    JoinOutcome(RegOf(a, s), RegOf(b, s));
  }

  /** Nodes `i` and `j` syncing replaces both replicas by the two merges. */
  function Synced2(ts: seq<Table>, i: nat, j: nat): seq<Table>
    requires i < |ts| && j < |ts|
  {
    ts[i := MergedTable(ts[i], ts[j])][j := MergedTable(ts[j], ts[i])]
  }

  /** A sync of nodes `i` and `j` gives both the union of their facts, and no other node's. */
  lemma KnowsAfterSync(ts: seq<Table>, V: set<Fact>, i: nat, j: nat)
    requires i < j < |ts|
    ensures var ks := Knows(ts, V);
            Knows(Synced2(ts, i, j), V) == ks[i := ks[i] + ks[j]][j := ks[i] + ks[j]]
  {
    var ks, ts' := Knows(ts, V), Synced2(ts, i, j);
    KnowMerged(ts[i], ts[j], V);
    KnowMerged(ts[j], ts[i], V);
    assert Know(ts'[i], V) == ks[i] + ks[j] && Know(ts'[j], V) == ks[i] + ks[j];
  }

  /** A sync keeps every register one that some replica of `t0` held. */
  lemma OriginsAfterSync(t0: seq<Table>, ts: seq<Table>, i: nat, j: nat)
    requires Origins(t0, ts) && i < j < |ts|
    ensures Origins(t0, Synced2(ts, i, j))
  {
    var ts' := Synced2(ts, i, j);
    forall k, s | 0 <= k < |ts'| && s in ts'[k] ensures ts'[k][s] in Offered(t0, s) {
      if k == i {
        MergedPicks(ts[i], ts[j], s);
      } else if k == j {
        MergedPicks(ts[j], ts[i], s);
      }
    }
  }

  /** Before any sync each register is its own origin. */
  lemma OriginsStart(t0: seq<Table>)
    ensures Origins(t0, t0)
  {
    forall k, s | 0 <= k < |t0| && s in t0[k] ensures t0[k][s] in Offered(t0, s) {
    }
  }

  /** Each scope a replica of `t0` holds, at the timestamp it holds it, is among all the facts of `t0`. */
  lemma FactHeldAtStart(t0: seq<Table>, k: nat, s: LeaseScope)
    requires k < |t0| && s in t0[k]
    ensures (s, StampOf(t0[k], s)) in Union(Knows(t0, Facts(t0)), |t0|)
  {
    var V := Facts(t0);
    var p := (s, StampOf(t0[k], s));
    assert p in V;
    assert p in Know(t0[k], V);
    UnionBounds(Knows(t0, V), |t0|, |t0|);
  }

  /** Replicas that each know every fact of `t0` and hold only registers of `t0` have converged from it. */
  lemma AllKnownConverged(t0: seq<Table>, ts: seq<Table>)
    requires |ts| == |t0| && Origins(t0, ts)
    requires forall k, p :: 0 <= k < |ts| && p in Union(Knows(t0, Facts(t0)), |t0|) ==> p in Know(ts[k], Facts(t0))
    ensures Converged(t0, ts)
  {
    forall k, k', s | 0 <= k < |ts| && 0 <= k' < |t0| && s in t0[k']
      ensures s in ts[k] && StampLe(StampOf(t0[k'], s), StampOf(ts[k], s))
    {
      FactHeldAtStart(t0, k', s);
      assert (s, StampOf(t0[k'], s)) in Know(ts[k], Facts(t0));
    }
  }

  /** Converged replicas know exactly the scopes of `t0`, whose key sets are `ks`. */
  lemma {:induction false} ConvergedKeys(t0: seq<Table>, ts: seq<Table>, ks: seq<set<LeaseScope>>)
    requires Converged(t0, ts) && |ks| == |t0|
    requires forall k :: 0 <= k < |t0| ==> ks[k] == t0[k].Keys
    ensures forall k :: 0 <= k < |ts| ==> ts[k].Keys == Union(ks, |ks|)
  {
    UnionBounds(ks, |ks|, |ks|);
    forall k, s | 0 <= k < |ts| ensures s in ts[k] <==> s in Union(ks, |ks|) {
      if s in Union(ks, |ks|) {
        UnionHas(ks, |ks|, s);
      }
      if s in ts[k] {
        assert ts[k][s] in Offered(t0, s);
        var a :| 0 <= a < |t0| && s in t0[a];
        assert s in ks[a];
      }
    }
  }

  /** Converged replicas agree on the timestamp of every scope: all hold the latest one. */
  lemma ConvergedSameStamp(t0: seq<Table>, ts: seq<Table>, s: LeaseScope, k1: nat, k2: nat)
    requires Converged(t0, ts) && k1 < |ts| && k2 < |ts|
    ensures StampOf(ts[k1], s) == StampOf(ts[k2], s)
  {
    if s in ts[k1] || s in ts[k2] {
      var k := if s in ts[k1] then k1 else k2;
      assert ts[k][s] in Offered(t0, s);
      var c :| 0 <= c < |t0| && s in t0[c];
      assert s in ts[k1] && s in ts[k2];
      assert ts[k1][s] in Offered(t0, s);
      var a :| 0 <= a < |t0| && s in t0[a] && t0[a][s] == ts[k1][s];
      assert ts[k2][s] in Offered(t0, s);
      var b :| 0 <= b < |t0| && s in t0[b] && t0[b][s] == ts[k2][s];
      assert StampLe(StampOf(ts[k1], s), StampOf(ts[k2], s));
      assert StampLe(StampOf(ts[k2], s), StampOf(ts[k1], s));
      if ts[k1][s].Some? && ts[k2][s].Some? {
        OrderIsStrictTotal(ts[k1][s].value.timestamp, ts[k2][s].value.timestamp, ts[k1][s].value.timestamp);
      }
    }
  }

  /** When one register of `t0` for `s` is strictly the latest, every converged replica holds exactly it. */
  lemma ConvergedOnSoleLatest(t0: seq<Table>, ts: seq<Table>, s: LeaseScope, r: Register<LeaseEntry>)
    requires Converged(t0, ts) && SoleLatest(t0, s, r)
    ensures forall k :: 0 <= k < |ts| ==> s in ts[k] && ts[k][s] == r
  {
    var a :| 0 <= a < |t0| && s in t0[a] && t0[a][s] == r;
    forall k | 0 <= k < |ts| ensures s in ts[k] && ts[k][s] == r {
      assert StampLe(StampOf(t0[a], s), StampOf(ts[k], s));
      assert ts[k][s] in Offered(t0, s);
    }
  }

  /**
   * The grants of `TiedGrantsStayApart` under the tie-broken merge: both
   * replicas end with the same holder, one of the two granting nodes.
   */
  lemma TiedGrantsConverge(scope: LeaseScope, a: ActorId, b: ActorId, ida: LeaseId, idb: LeaseId, granted: Timestamp, expires: Timestamp,
                           before: (LeaseEntry, LeaseEntry) -> bool)
    requires a != b && Decides(before)
    ensures var ta := Granted(map[], scope, a, ida, granted, expires);
            var tb := Granted(map[], scope, b, idb, granted, expires);
            var h := MergedTieBroken(ta, tb, before)[scope].value.value.holder;
            h == MergedTieBroken(tb, ta, before)[scope].value.value.holder && (h == a || h == b)
  {
    var ta := Granted(map[], scope, a, ida, granted, expires);
    var tb := Granted(map[], scope, b, idb, granted, expires);
    MergedTieBrokenCommutative(ta, tb, before);
  }

  /** The replica of each node of `ns`. */
  ghost function Tables(ns: seq<CGNode>): (r: seq<Table>)
    reads set n | n in ns :: n.leaseCrdt
    ensures |r| == |ns|
    ensures forall k :: 0 <= k < |ns| ==> r[k] == ns[k].leaseCrdt.leases
  {
    if ns == [] then [] else Tables(ns[..|ns| - 1]) + [ns[|ns| - 1].leaseCrdt.leases]
  }

  /** The scopes each replica of `ts` knows. */
  function KeysOf(ts: seq<Table>): (r: seq<set<LeaseScope>>)
    ensures |r| == |ts| && forall k :: 0 <= k < |ts| ==> r[k] == ts[k].Keys
  {
    if ts == [] then [] else KeysOf(ts[..|ts| - 1]) + [ts[|ts| - 1].Keys]
  }

  /** Everything in the first `m` sets. */
  function Union<T>(ks: seq<set<T>>, m: nat): set<T>
    requires m <= |ks|
  {
    if m == 0 then {} else Union(ks, m - 1) + ks[m - 1]
  }

  /** Each of the first `m` sets lies inside their union, and the union lies inside any longer union. */
  lemma {:induction false} UnionBounds<T>(ks: seq<set<T>>, m: nat, m': nat)
    requires m <= m' <= |ks|
    ensures forall k :: 0 <= k < m ==> ks[k] <= Union(ks, m)
    ensures Union(ks, m) <= Union(ks, m')
  {
    if m' > m {
      UnionBounds(ks, m, m' - 1);
    } else if m > 0 {
      UnionBounds(ks, m - 1, m - 1);
    }
  }

  /** Whatever lies in the union of the first `m` sets lies in one of them. */
  lemma {:induction false} UnionHas<T>(ks: seq<set<T>>, m: nat, x: T)
    requires m <= |ks| && x in Union(ks, m)
    ensures exists k :: 0 <= k < m && x in ks[k]
  {
    if x !in ks[m - 1] {
      UnionHas(ks, m - 1, x);
    }
  }

  /** Adding one scope to every key set adds it to a non-empty union. */
  lemma {:induction false} UnionAddOne(ks: seq<set<LeaseScope>>, ks': seq<set<LeaseScope>>, s: LeaseScope, m: nat)
    requires |ks| == |ks'| && 0 < m <= |ks|
    requires forall k :: 0 <= k < |ks| ==> ks'[k] == ks[k] + {s}
    ensures Union(ks', m) == Union(ks, m) + {s}
  {
    if m > 1 {
      UnionAddOne(ks, ks', s, m - 1);
    }
  }

  /** The clocks and replicas of `ns`. */
  ghost function Parts(ns: seq<CGNode>): set<object>
  {
    (set n | n in ns :: n.hlc) + (set n | n in ns :: n.leaseCrdt)
  }

  /** Every node of `ns` can read its skewed clock at `realMs`. */
  predicate AllCanRead(ns: seq<CGNode>, realMs: nat)
  {
    forall k :: 0 <= k < |ns| ==> ns[k].CanRead(realMs)
  }

  /** One more node asked adds its refusal, if any, to the end. */
  lemma RefusalsStep(vs: seq<NodeView>, i: nat, scope: LeaseScope)
    requires i < |vs|
    ensures RefusalOf(vs[i], scope).None? ==> RefusalsOf(vs[..i + 1], scope) == RefusalsOf(vs[..i], scope)
    ensures RefusalOf(vs[i], scope).Some? ==>
      RefusalsOf(vs[..i + 1], scope) == RefusalsOf(vs[..i], scope) + [(vs[i].id, RefusalOf(vs[i], scope).value)]
  {
    assert vs[..i + 1][..i] == vs[..i];
  }

  /** What the nodes of `ns` show a request at `realMs`. */
  ghost function Views(ns: seq<CGNode>, realMs: nat): (r: seq<NodeView>)
    requires AllCanRead(ns, realMs)
    reads Parts(ns)
    ensures |r| == |ns|
    ensures forall k :: 0 <= k < |ns| ==> r[k] == ns[k].View(realMs)
  {
    if ns == [] then [] else Views(ns[..|ns| - 1], realMs) + [ns[|ns| - 1].View(realMs)]
  }

  /** A consensus group of nodes (`ConsensusGroup`). */
  class ConsensusGroup {
    const name: string
    const nodes: seq<CGNode>

    /** No two nodes share a clock or a replica. */
    ghost predicate Valid()
    {
      forall i, j :: 0 <= i < j < |nodes| ==> nodes[i].hlc != nodes[j].hlc && nodes[i].leaseCrdt != nodes[j].leaseCrdt
    }

    /** `ConsensusGroup::new`: one fresh node per (name, skew) pair, in order. */
    constructor (name: string, configs: seq<(ActorId, int)>)
      ensures Valid() && this.name == name && |nodes| == |configs|
      ensures forall k :: 0 <= k < |nodes| ==>
        nodes[k].id == configs[k].0 && nodes[k].clockSkewMs == configs[k].1 &&
        nodes[k].hlc.State() == ClockState(0, 0) && nodes[k].leaseCrdt.leases == map[]
      ensures fresh(Parts(nodes))
    {
      this.name := name;
      var made: seq<CGNode> := [];
      while |made| < |configs|
        invariant |made| <= |configs|
        invariant forall i, j :: 0 <= i < j < |made| ==> made[i].hlc != made[j].hlc && made[i].leaseCrdt != made[j].leaseCrdt
        invariant forall k :: 0 <= k < |made| ==>
          made[k].id == configs[k].0 && made[k].clockSkewMs == configs[k].1 &&
          made[k].hlc.State() == ClockState(0, 0) && made[k].leaseCrdt.leases == map[]
        invariant fresh(Parts(made))
      {
        var node := new CGNode(configs[|made|].0, configs[|made|].1);
        assert Parts(made + [node]) == Parts(made) + {node.hlc, node.leaseCrdt};
        made := made + [node];
      }
      nodes := made;
    }

    /** The scopes any replica of the group knows. */
    ghost function AllScopes(): set<LeaseScope>
      reads Parts(nodes)
    {
      Union(KeysOf(Tables(nodes)), |nodes|)
    }

    /**
     * `process_lease_request`: every node is asked in turn; with at least
     * a majority of grants all nodes are synced and the request succeeds,
     * otherwise it fails with the refusals met. The requester only names
     * the request: each granting node records itself as the holder.
     */
    method ProcessLeaseRequest(requesterId: string, scope: LeaseScope, durationMs: nat, realMs: nat, leaseIds: seq<LeaseId>)
      returns (r: Result<(), seq<(ActorId, LeaseInfo)>>)
      requires Valid() && AllCanRead(nodes, realMs) && |leaseIds| == |nodes|
      modifies Parts(nodes)
      ensures r.Ok? <==> |nodes| - |RefusalsOf(old(Views(nodes, realMs)), scope)| >= ConsensusBasics.Majority(|nodes|)
      ensures r.Err? ==> r.error == RefusalsOf(old(Views(nodes, realMs)), scope)
      ensures r.Err? ==> forall k :: 0 <= k < |nodes| ==> nodes[k].leaseCrdt.leases == OutcomeOf(old(Views(nodes, realMs))[k], scope, durationMs, leaseIds[k])
      ensures r.Ok? ==> forall k :: 0 <= k < |nodes| ==> nodes[k].leaseCrdt.leases.Keys == old(AllScopes()) + {scope}
      ensures r.Ok? ==> Converged(Outcomes(old(Views(nodes, realMs)), scope, durationMs, leaseIds), Tables(nodes))
    {
      ghost var before := KeysOf(Tables(nodes));
      var refusals := RequestAll(scope, durationMs, realMs, leaseIds);
      assert forall k :: 0 <= k < |nodes| ==> KeysOf(Tables(nodes))[k] == before[k] + {scope};
      if |nodes| - |refusals| >= ConsensusBasics.Majority(|nodes|) {
        UnionAddOne(before, KeysOf(Tables(nodes)), scope, |nodes|);
        SyncAllNodes(realMs);
        r := Ok(());
      } else {
        r := Err(refusals);
      }
    }

    /** Put the request to every node in order, collecting the refusals. */
    method RequestAll(scope: LeaseScope, durationMs: nat, realMs: nat, leaseIds: seq<LeaseId>)
      returns (refusals: seq<(ActorId, LeaseInfo)>)
      requires Valid() && AllCanRead(nodes, realMs) && |leaseIds| == |nodes|
      modifies Parts(nodes)
      ensures refusals == RefusalsOf(old(Views(nodes, realMs)), scope)
      ensures forall k :: 0 <= k < |nodes| ==> nodes[k].leaseCrdt.leases == OutcomeOf(old(Views(nodes, realMs))[k], scope, durationMs, leaseIds[k])
      ensures Tables(nodes) == Outcomes(old(Views(nodes, realMs)), scope, durationMs, leaseIds)
    {
      ghost var vs := Views(nodes, realMs);
      refusals := RequestLoop(vs, scope, durationMs, realMs, leaseIds);
      assert vs[..|nodes|] == vs;
      ghost var ts := Tables(nodes);
      OutcomesAre(ts, vs, scope, durationMs, leaseIds);
    }

    /** The loop of `RequestAll`, against the views `vs` taken before. */
    method RequestLoop(ghost vs: seq<NodeView>, scope: LeaseScope, durationMs: nat, realMs: nat, leaseIds: seq<LeaseId>)
      returns (refusals: seq<(ActorId, LeaseInfo)>)
      requires Valid() && AllCanRead(nodes, realMs) && |leaseIds| == |nodes|
      requires AskedUpTo(vs, 0, [], scope, durationMs, realMs, leaseIds)
      modifies Parts(nodes)
      ensures AskedUpTo(vs, |nodes|, refusals, scope, durationMs, realMs, leaseIds)
    {
      refusals := [];
      var i := 0;
      while i < |nodes|
        invariant 0 <= i <= |nodes|
        invariant AskedUpTo(vs, i, refusals, scope, durationMs, realMs, leaseIds)
      {
        refusals := AskNext(vs, i, refusals, scope, durationMs, realMs, leaseIds);
        i := i + 1;
      }
    }

    /**
     * Where `RequestAll` stands after the first `i` nodes, against the
     * views `vs` taken before any was asked: the refusals of those nodes in
     * order, their replicas holding their outcomes, the later nodes as they were.
     */
    ghost predicate AskedUpTo(vs: seq<NodeView>, i: nat, refusals: seq<(ActorId, LeaseInfo)>,
                              scope: LeaseScope, durationMs: nat, realMs: nat, leaseIds: seq<LeaseId>)
      requires AllCanRead(nodes, realMs)
      reads Parts(nodes)
    {
      |vs| == |nodes| == |leaseIds| && i <= |nodes| &&
      refusals == RefusalsOf(vs[..i], scope) &&
      (forall k :: 0 <= k < i ==> nodes[k].leaseCrdt.leases == OutcomeOf(vs[k], scope, durationMs, leaseIds[k])) &&
      (forall k :: i <= k < |nodes| ==> nodes[k].View(realMs) == vs[k])
    }

    /** One pass of `RequestAll`'s loop: node `i` is asked and its refusal, if any, is added. */
    method AskNext(ghost vs: seq<NodeView>, i: nat, refusals: seq<(ActorId, LeaseInfo)>,
                   scope: LeaseScope, durationMs: nat, realMs: nat, leaseIds: seq<LeaseId>)
      returns (refusals': seq<(ActorId, LeaseInfo)>)
      requires Valid() && AllCanRead(nodes, realMs) && i < |nodes|
      requires AskedUpTo(vs, i, refusals, scope, durationMs, realMs, leaseIds)
      modifies Parts(nodes)
      ensures AskedUpTo(vs, i + 1, refusals', scope, durationMs, realMs, leaseIds)
    {
      var result := AskOne(i, scope, durationMs, realMs, leaseIds[i]);
      RefusalsStep(vs, i, scope);
      refusals' := refusals;
      if result.Err? {
        refusals' := refusals + [(nodes[i].id, result.error)];
      }
    }

    /**
     * `sync_all_nodes`: every pair of nodes syncs, the lower index first.
     * Afterwards every replica knows every scope any replica knew, and
     * holds for it a register some replica held, with the latest
     * timestamp any replica held (`Converged`): all replicas then agree on
     * each scope's timestamp (`ConvergedSameStamp`), and on its entry when
     * a single entry carries that timestamp (`ConvergedOnSoleLatest`).
     * Entries tied on the latest timestamp can stay apart
     * (`TiedGrantsStayApart`).
     */
    method SyncAllNodes(realMs: nat)
      requires Valid() && AllCanRead(nodes, realMs)
      modifies Parts(nodes)
      ensures forall k :: 0 <= k < |nodes| ==> nodes[k].leaseCrdt.leases.Keys == old(AllScopes())
      ensures Converged(old(Tables(nodes)), Tables(nodes))
    {
      ghost var t0 := Tables(nodes);
      ghost var V := Facts(t0);
      ghost var init := Knows(t0, V);
      UnionBounds(init, |nodes|, |nodes|);
      OriginsStart(t0);
      var i := 0;
      while i < |nodes|
        invariant 0 <= i <= |nodes|
        invariant Synced(init, Knows(Tables(nodes), V), i)
        invariant Origins(t0, Tables(nodes))
      {
        SyncRow(i, realMs, t0, V);
        i := i + 1;
      }
      AllKnownConverged(t0, Tables(nodes));
      ConvergedKeys(t0, Tables(nodes), KeysOf(t0));
    }

    /** One row of the all-to-all sync: node `i` syncs with every later node. */
    method SyncRow(i: nat, realMs: nat, ghost t0: seq<Table>, ghost V: set<Fact>)
      requires Valid() && AllCanRead(nodes, realMs) && i < |nodes| == |t0|
      requires Synced(Knows(t0, V), Knows(Tables(nodes), V), i) && Origins(t0, Tables(nodes))
      modifies Parts(nodes)
      ensures Synced(Knows(t0, V), Knows(Tables(nodes), V), i + 1) && Origins(t0, Tables(nodes))
    {
      ghost var init := Knows(t0, V);
      ghost var start := Knows(Tables(nodes), V);
      ghost var ks := start;
      RowStart(init, start, i);
      var j := i + 1;
      while j < |nodes|
        invariant i < j <= |nodes|
        invariant ks == Knows(Tables(nodes), V)
        invariant RowSynced(init, ks, start, i, j)
        invariant Origins(t0, Tables(nodes))
      {
        ghost var ts := Tables(nodes);
        SyncPair(i, j, realMs);
        KnowsAfterSync(ts, V, i, j);
        OriginsAfterSync(t0, ts, i, j);
        RowStep(init, ks, start, i, j);
        ks := ks[i := ks[i] + ks[j]][j := ks[i] + ks[j]];
        j := j + 1;
      }
      RowDone(init, ks, start, i);
    }

    /** `request_lease` on node `i` alone: its replica takes the outcome, and no other node changes. */
    method AskOne(i: nat, scope: LeaseScope, durationMs: nat, realMs: nat, leaseId: LeaseId) returns (r: Result<(), LeaseInfo>)
      requires Valid() && AllCanRead(nodes, realMs) && i < |nodes|
      modifies Parts(nodes)
      ensures r.Ok? <==> RefusalOf(old(nodes[i].View(realMs)), scope).None?
      ensures r.Err? ==> Some(r.error) == RefusalOf(old(nodes[i].View(realMs)), scope)
      ensures nodes[i].leaseCrdt.leases == OutcomeOf(old(nodes[i].View(realMs)), scope, durationMs, leaseId)
      ensures forall k :: 0 <= k < |nodes| && k != i ==> nodes[k].View(realMs) == old(nodes[k].View(realMs))
      ensures Tables(nodes) == old(Tables(nodes))[i := nodes[i].leaseCrdt.leases]
    {
      ghost var ts := Tables(nodes);
      r := nodes[i].RequestLease(scope, durationMs, realMs, leaseId);
      assert forall k :: 0 <= k < |nodes| && k != i ==> nodes[k].leaseCrdt != nodes[i].leaseCrdt && nodes[k].hlc != nodes[i].hlc;
      assert Tables(nodes) == ts[i := nodes[i].leaseCrdt.leases];
    }

    /**
     * `sync_with` between nodes `i` and `j`: each replica becomes its merge
     * with the other's old replica, and no other replica changes.
     */
    method SyncPair(i: nat, j: nat, realMs: nat)
      requires Valid() && AllCanRead(nodes, realMs) && i < j < |nodes|
      modifies Parts(nodes)
      ensures Tables(nodes) == Synced2(old(Tables(nodes)), i, j)
    {
      ghost var ts := Tables(nodes);
      nodes[i].SyncWith(nodes[j], realMs);
      assert forall k :: 0 <= k < |nodes| && k != i && k != j ==> nodes[k].leaseCrdt != nodes[i].leaseCrdt && nodes[k].leaseCrdt != nodes[j].leaseCrdt;
      assert Tables(nodes) == Synced2(ts, i, j);
    }
  }

  /**
   * Where the all-to-all sync stands before row `i`, against what each
   * node knew, `init`, when it started: the rows done know everything, no
   * node knows more than everything, each later node still knows what it
   * knew and, once row 0 is done, everything up to its own index.
   */
  ghost predicate Synced<T>(init: seq<set<T>>, ks: seq<set<T>>, i: nat)
  {
    |ks| == |init| && i <= |init| &&
    (forall k :: 0 <= k < i ==> ks[k] == Union(init, |init|)) &&
    (forall k :: 0 <= k < |ks| ==> ks[k] <= Union(init, |init|)) &&
    (forall k :: i <= k < |ks| ==> init[k] <= ks[k]) &&
    (0 < i ==> forall k :: i <= k < |ks| ==> Union(init, k + 1) <= ks[k])
  }

  /** Where row `i` stands before its sync with node `j`, against what each node knew, `start`, when the row started. */
  ghost predicate RowSynced<T>(init: seq<set<T>>, ks: seq<set<T>>, start: seq<set<T>>, i: nat, j: nat)
  {
    |ks| == |init| == |start| && i < j <= |init| &&
    Union(init, j) <= ks[i] &&
    (forall k :: 0 <= k < i ==> ks[k] == start[k]) &&
    (forall k :: i < k < j ==> Union(init, k + 1) <= ks[k]) &&
    (forall k :: j <= k < |ks| ==> ks[k] == start[k]) &&
    (forall k :: 0 <= k < |ks| ==> ks[k] <= Union(init, |init|)) &&
    Synced(init, start, i)
  }

  /** Row `i` starts where the rows before it left off. */
  lemma RowStart<T>(init: seq<set<T>>, ks: seq<set<T>>, i: nat)
    requires Synced(init, ks, i) && i < |init|
    ensures RowSynced(init, ks, ks, i, i + 1)
  {
    UnionBounds(init, i + 1, i + 1);
  }

  /** A sync of nodes `i` and `j` moves row `i` on to `j + 1`. */
  lemma RowStep<T>(init: seq<set<T>>, ks: seq<set<T>>, start: seq<set<T>>, i: nat, j: nat)
    requires RowSynced(init, ks, start, i, j) && j < |ks|
    ensures RowSynced(init, ks[i := ks[i] + ks[j]][j := ks[i] + ks[j]], start, i, j + 1)
  {
    assert Union(init, j + 1) == Union(init, j) + init[j];
  }

  /** A finished row leaves its node knowing everything. */
  lemma RowDone<T>(init: seq<set<T>>, ks: seq<set<T>>, start: seq<set<T>>, i: nat)
    requires RowSynced(init, ks, start, i, |init|)
    ensures Synced(init, ks, i + 1)
  {
    UnionBounds(init, |init|, |init|);
  }

  /**
   * Test 2 of the demonstration: every node is asked for `scope` on its
   * own, whatever the others answer, and then the group syncs to resolve
   * the conflicting grants. Every replica ends knowing the scope and
   * everything known before, the replicas have converged from the
   * outcomes of the requests, all hold the same timestamp for `scope`,
   * and all hold the same entry for it when one outcome's entry is
   * strictly the latest.
   */
  method ConcurrentRequests(cg: ConsensusGroup, scope: LeaseScope, durationMs: nat, realMs: nat, leaseIds: seq<LeaseId>)
    requires cg.Valid() && AllCanRead(cg.nodes, realMs) && |leaseIds| == |cg.nodes| > 0
    modifies Parts(cg.nodes)
    ensures forall k :: 0 <= k < |cg.nodes| ==> cg.nodes[k].leaseCrdt.leases.Keys == old(cg.AllScopes()) + {scope}
    ensures Converged(Outcomes(old(Views(cg.nodes, realMs)), scope, durationMs, leaseIds), Tables(cg.nodes))
    ensures forall k, k' :: 0 <= k < |cg.nodes| && 0 <= k' < |cg.nodes| ==>
      StampOf(cg.nodes[k].leaseCrdt.leases, scope) == StampOf(cg.nodes[k'].leaseCrdt.leases, scope)
    ensures forall k, r :: 0 <= k < |cg.nodes| && SoleLatest(Outcomes(old(Views(cg.nodes, realMs)), scope, durationMs, leaseIds), scope, r) ==>
      cg.nodes[k].leaseCrdt.leases[scope] == r
  {
    ghost var vs := Views(cg.nodes, realMs);
    ghost var before := KeysOf(Tables(cg.nodes));
    var refusals := cg.RequestAll(scope, durationMs, realMs, leaseIds);
    assert forall k :: 0 <= k < |cg.nodes| ==> KeysOf(Tables(cg.nodes))[k] == before[k] + {scope};
    UnionAddOne(before, KeysOf(Tables(cg.nodes)), scope, |cg.nodes|);
    ghost var mid := Outcomes(vs, scope, durationMs, leaseIds);
    cg.SyncAllNodes(realMs);
    ghost var ts := Tables(cg.nodes);
    forall k, k' | 0 <= k < |cg.nodes| && 0 <= k' < |cg.nodes|
      ensures StampOf(ts[k], scope) == StampOf(ts[k'], scope)
    {
      ConvergedSameStamp(mid, ts, scope, k, k');
    }
    forall r | SoleLatest(mid, scope, r) ensures forall k :: 0 <= k < |ts| ==> scope in ts[k] && ts[k][scope] == r {
      ConvergedOnSoleLatest(mid, ts, scope, r);
    }
  }

  /**
   * The scopes of three replicas `t` after node 0 of `t0` takes `a`, which
   * gains `s3`, node 1 takes `b`, which gains `s4`, and nodes 1 and 2 sync.
   */
  lemma HealedScopes(t0: seq<Table>, t: seq<Table>, a: Table, b: Table, s3: LeaseScope, s4: LeaseScope)
    requires |t0| == 3 && a.Keys == t0[0].Keys + {s3} && b.Keys == t0[1].Keys + {s4}
    requires t == Synced2(t0[0 := a][1 := b], 1, 2)
    ensures Union(KeysOf(t), 3) == Union(KeysOf(t0), 3) + {s3, s4}
  {
    var before, after := KeysOf(t0), KeysOf(t);
    MergedKeys(b, t0[2]);
    MergedKeys(t0[2], b);
    assert Union(after, 1) == after[0] && Union(before, 1) == before[0];
    assert Union(after, 2) == after[0] + after[1] && Union(before, 2) == before[0] + before[1];
  }

  /**
   * Test 3 of the demonstration on a three-node group: node 0 alone is
   * asked for `scope3`, node 1 for `scope4` and syncs with node 2, and
   * then the partition heals with a full sync; every replica ends knowing
   * both scopes.
   */
  method PartitionAndHeal(cg: ConsensusGroup, scope3: LeaseScope, scope4: LeaseScope, realMs: nat, id3: LeaseId, id4: LeaseId)
    requires cg.Valid() && AllCanRead(cg.nodes, realMs) && |cg.nodes| == 3
    modifies Parts(cg.nodes)
    ensures forall k :: 0 <= k < 3 ==> cg.nodes[k].leaseCrdt.leases.Keys == old(cg.AllScopes()) + {scope3, scope4}
  {
    ghost var t0 := Tables(cg.nodes);
    var first := cg.AskOne(0, scope3, 20000, realMs, id3);
    ghost var a := cg.nodes[0].leaseCrdt.leases;
    var second := cg.AskOne(1, scope4, 20000, realMs, id4);
    ghost var b := cg.nodes[1].leaseCrdt.leases;
    cg.SyncPair(1, 2, realMs);
    HealedScopes(t0, Tables(cg.nodes), a, b, scope3, scope4);
    cg.SyncAllNodes(realMs);
  }
}
