/**
 * The consensus-group sketch of examples/consensus_group_basics.rs: nodes
 * with a replicated key-value state, a leader flag, a heartbeat reading
 * and a term, and a simplified election that counts the votes of nodes
 * whose term is behind.
 *
 * Each `CGNode` of the source shares its cells through `Arc<Mutex<…>>`,
 * so a cloned node and the original are one node; here a node is an
 * object and a slice of nodes a sequence of references. `Instant` readings
 * are millisecond counts passed in as `now`; printing and the sleeps are
 * not modelled.
 */
module ConsensusBasics {
  import opened Wrappers

  /** A heartbeat older than this starts an election, in milliseconds. */
  const ElectionTimeout: nat := 300

  /** The least number of votes that is more than half of `n` voters. */
  function Majority(n: nat): (r: nat)
    ensures 2 * r > n && 2 * (r - 1) <= n
  {
    n / 2 + 1
  }

  /** Two majorities of the same `n` voters cannot come from disjoint sets of voters. */
  lemma MajoritiesOverlap(n: nat, p: nat, q: nat)
    requires p + q <= n
    ensures !(p >= Majority(n) && q >= Majority(n))
  {
  }

  /** The decimal digits of `n`, most significant first, as `format!` writes them. */
  function Decimal(n: nat): (r: string)
    ensures |r| >= 1 && (n >= 10 <==> |r| >= 2)
    ensures forall i :: 0 <= i < |r| ==> '0' <= r[i] <= '9'
    decreases n
  {
    var digit := "0123456789"[n % 10];
    if n < 10 then [digit] else Decimal(n / 10) + [digit]
  }

  /** Different numbers are written differently. */
  lemma {:induction false} DecimalInjective(a: nat, b: nat)
    requires Decimal(a) == Decimal(b)
    ensures a == b
    decreases a
  {
    var da, db := Decimal(a), Decimal(b);
    assert da[|da| - 1] == db[|db| - 1];
    assert "0123456789"[a % 10] == "0123456789"[b % 10];
    assert a % 10 == b % 10;
    if a >= 10 {
      assert da[..|da| - 1] == Decimal(a / 10);
      assert db[..|db| - 1] == Decimal(b / 10);
      DecimalInjective(a / 10, b / 10);
    }
  }

  /** The name `ConsensusGroup::new` gives its `i`-th node. */
  function NodeName(i: nat): string
  {
    "node-" + Decimal(i)
  }

  /** Different positions in a group give different names. */
  lemma NodeNamesDistinct(i: nat, j: nat)
    requires i != j
    ensures NodeName(i) != NodeName(j)
  {
    if NodeName(i) == NodeName(j) {
      assert NodeName(i)[5..] == Decimal(i);
      assert NodeName(j)[5..] == Decimal(j);
      DecimalInjective(i, j);
    }
  }

  /** No node appears twice in a slice of nodes. */
  predicate DistinctNodes(nodes: seq<CGNode>)
  {
    forall i, j :: 0 <= i < j < |nodes| ==> nodes[i] != nodes[j]
  }

  /** The objects of a slice of nodes. */
  function NodeSet(nodes: seq<CGNode>): set<CGNode>
  {
    set n | n in nodes
  }

  /**
   * The votes a candidate named `candidate` collects in an election for
   * `electionTerm`, besides its own: one from every node of another name
   * whose term is behind.
   */
  function VotesOf(nodes: seq<CGNode>, candidate: string, electionTerm: nat): (r: nat)
    reads NodeSet(nodes)
    ensures r <= |nodes|
    decreases |nodes|
  {
    if nodes == [] then 0
    else
      var n := nodes[|nodes| - 1];
      VotesOf(nodes[..|nodes| - 1], candidate, electionTerm)
        + (if n.id != candidate && n.term < electionTerm then 1 else 0)
  }

  /** A node of the group sketch. */
  class CGNode {
    const id: string
    const groupId: string
    var state: map<string, string>
    var isLeader: bool
    var lastHeartbeat: nat
    var term: nat

    /** `CGNode::new`: an empty state, a follower at term 0, heard from at `now`. */
    constructor (id: string, groupId: string, now: nat)
      ensures this.id == id && this.groupId == groupId
      ensures state == map[] && !isLeader && lastHeartbeat == now && term == 0
    {
      this.id := id;
      this.groupId := groupId;
      state := map[];
      isLeader := false;
      lastHeartbeat := now;
      term := 0;
    }

    /** `write`: only a leader takes a write, and then the key holds the value. */
    method Write(key: string, value: string) returns (r: Result<(), string>)
      modifies this
      ensures !old(isLeader) ==> r == Err("Not the leader") && state == old(state)
      ensures old(isLeader) ==> r == Ok(()) && state == old(state)[key := value]
      ensures isLeader == old(isLeader) && term == old(term) && lastHeartbeat == old(lastHeartbeat)
    {
      if !isLeader {
        return Err("Not the leader");
      }
      state := state[key := value];
      r := Ok(());
    }

    /** `read`: the value the state holds for the key, if any. */
    function Read(key: string): (r: Option<string>)
      reads this
      ensures r.Some? <==> key in state
      ensures r.Some? ==> r.value == state[key]
    {
      if key in state then Some(state[key]) else None
    }

    /** `check_election_timeout`: a follower whose last heartbeat is too old. A leader never times out. */
    function ElectionTimedOut(now: nat): (r: bool)
      reads this
      ensures r ==> !isLeader
      ensures r <==> !isLeader && now > lastHeartbeat + ElectionTimeout
    {
      now > lastHeartbeat + ElectionTimeout && !isLeader
    }

    /**
     * The election of `attempt_leadership`, with the majority taken of
     * `electorate` voters: the candidate moves to the next term, every
     * node of another name whose term is behind votes for it and adopts
     * the term, and the candidate leads if the votes, its own included,
     * reach a majority. Nothing else changes.
     */
    method Elect(others: seq<CGNode>, electorate: nat, now: nat) returns (votes: nat)
      requires DistinctNodes(others)
      modifies this, NodeSet(others)
      ensures term == old(term) + 1
      ensures votes == 1 + old(VotesOf(others, id, term + 1))
      ensures isLeader == (old(isLeader) || votes >= Majority(electorate))
      ensures lastHeartbeat == if votes >= Majority(electorate) then now else old(lastHeartbeat)
      ensures state == old(state)
      ensures forall n :: n in others && n != this ==>
        n.term == (if n.id != id && old(n.term) < term then term else old(n.term))
      ensures forall n :: n in others && n != this ==>
        n.isLeader == old(n.isLeader) && n.state == old(n.state) && n.lastHeartbeat == old(n.lastHeartbeat)
    {
      term := term + 1;
      var electionTerm := term;
      votes := 1;
      var i := 0;
      while i < |others|
        invariant 0 <= i <= |others|
        invariant term == electionTerm == old(term) + 1
        invariant isLeader == old(isLeader) && state == old(state) && lastHeartbeat == old(lastHeartbeat)
        invariant votes == 1 + old(VotesOf(others[..i], id, electionTerm))
        invariant forall j :: 0 <= j < i && others[j] != this ==>
          others[j].term == (if others[j].id != id && old(others[j].term) < electionTerm then electionTerm else old(others[j].term))
        invariant forall j :: i <= j < |others| && others[j] != this ==> others[j].term == old(others[j].term)
        invariant forall n :: n in others && n != this ==>
          n.isLeader == old(n.isLeader) && n.state == old(n.state) && n.lastHeartbeat == old(n.lastHeartbeat)
      {
        var node := others[i];
        assert others[..i + 1][..i] == others[..i];
        if node.id != id {
          if node.term < electionTerm {
            votes := votes + 1;
            node.term := electionTerm;
          }
        }
        i := i + 1;
      }
      assert others[..i] == others;
      if votes >= Majority(electorate) {
        isLeader := true;
        lastHeartbeat := now;
      }
    }

    /**
     * `attempt_leadership` as written: the majority is taken of the
     * slice it is handed plus one, so a candidate coached by a slice of
     * the group needs a majority of that slice only.
     */
    method AttemptLeadership(others: seq<CGNode>, now: nat)
      requires DistinctNodes(others)
      modifies this, NodeSet(others)
      ensures term == old(term) + 1
      ensures isLeader == (old(isLeader) || 1 + old(VotesOf(others, id, term + 1)) >= Majority(|others| + 1))
      ensures forall n :: n in others ==> n.term >= old(n.term)
      ensures forall n :: n in others && n != this ==>
        n.term == (if n.id != id && old(n.term) < term then term else old(n.term))
    {
      var votes := Elect(others, |others| + 1, now);
    }

    /**
     * `attempt_leadership` with the majority taken of the whole group of
     * `groupSize` nodes, as the partition part of `main` expects: a
     * candidate needs more than half of the group whatever slice it can reach.
     */
    method AttemptLeadershipInGroup(others: seq<CGNode>, groupSize: nat, now: nat)
      requires DistinctNodes(others)
      modifies this, NodeSet(others)
      ensures term == old(term) + 1
      ensures isLeader == (old(isLeader) || 1 + old(VotesOf(others, id, term + 1)) >= Majority(groupSize))
      ensures forall n :: n in others ==> n.term >= old(n.term)
      ensures forall n :: n in others && n != this ==>
        n.term == (if n.id != id && old(n.term) < term then term else old(n.term))
    {
      var votes := Elect(others, groupSize, now);
    }

    /** `send_heartbeat`: a leader refreshes every follower of another name; a follower sends nothing. */
    method SendHeartbeat(followers: seq<CGNode>, now: nat)
      modifies NodeSet(followers)
      ensures forall f :: f in followers && f != this ==>
        f.lastHeartbeat == (if old(isLeader) && f.id != id then now else old(f.lastHeartbeat))
      ensures forall f :: f in followers && f != this ==>
        f.isLeader == old(f.isLeader) && f.term == old(f.term) && f.state == old(f.state)
      ensures isLeader == old(isLeader) && term == old(term) && state == old(state)
      ensures old(isLeader) ==> forall f :: f in followers && f.id != id ==> !f.ElectionTimedOut(now)
    {
      if !isLeader {
        return;
      }
      var i := 0;
      while i < |followers|
        invariant 0 <= i <= |followers|
        invariant isLeader && term == old(term) && state == old(state)
        invariant forall j :: 0 <= j < i && followers[j] != this ==>
          followers[j].lastHeartbeat == (if followers[j].id != id then now else old(followers[j].lastHeartbeat))
        invariant forall j :: 0 <= j < i && followers[j].id != id ==> followers[j].lastHeartbeat == now
        invariant forall f :: f in followers[i..] && f !in followers[..i] && f != this ==> f.lastHeartbeat == old(f.lastHeartbeat)
        invariant forall f :: f in followers && f != this ==>
          f.isLeader == old(f.isLeader) && f.term == old(f.term) && f.state == old(f.state)
      {
        var follower := followers[i];
        if follower.id != id {
          follower.lastHeartbeat := now;
        }
        i := i + 1;
      }
    }
  }

  /** The group sketch: its nodes, in order. */
  class ConsensusGroup {
    const id: string
    const nodes: seq<CGNode>

    /** `ConsensusGroup::new`: `nodeCount` fresh nodes named by position, the first of them leading. */
    constructor (id: string, nodeCount: nat, now: nat)
      ensures this.id == id && |nodes| == nodeCount && DistinctNodes(nodes)
      ensures forall n :: n in nodes ==> fresh(n)
      ensures forall i :: 0 <= i < |nodes| ==>
        nodes[i].id == NodeName(i) && nodes[i].groupId == id && nodes[i].term == 0 &&
        nodes[i].state == map[] && nodes[i].lastHeartbeat == now && (nodes[i].isLeader <==> i == 0)
    {
      var made: seq<CGNode> := [];
      var i := 0;
      while i < nodeCount
        invariant 0 <= i <= nodeCount && |made| == i && DistinctNodes(made)
        invariant forall n :: n in made ==> fresh(n)
        invariant forall k :: 0 <= k < i ==>
          made[k].id == NodeName(k) && made[k].groupId == id && made[k].term == 0 &&
          made[k].state == map[] && made[k].lastHeartbeat == now && !made[k].isLeader
      {
        var node := new CGNode(NodeName(i), id, now);
        made := made + [node];
        i := i + 1;
      }
      if made != [] {
        assert made[0] in made;
        made[0].isLeader := true;
      }
      this.id := id;
      nodes := made;
    }

    /** `get_leader`: the position of the first node that believes it leads, if any. */
    function GetLeader(): (r: Option<nat>)
      reads this, NodeSet(nodes)
      ensures r.Some? ==> r.value < |nodes| && nodes[r.value].isLeader
      ensures r.Some? ==> forall k :: 0 <= k < r.value ==> !nodes[k].isLeader
      ensures r.None? <==> forall n :: n in nodes ==> !n.isLeader
    {
      FirstLeader(nodes)
    }

    /** `partition`: the first `partitionSize` nodes and the rest. Slicing past the end panics in the source. */
    function Partition(partitionSize: nat): (r: (seq<CGNode>, seq<CGNode>))
      requires partitionSize <= |nodes|
      reads this
      ensures |r.0| == partitionSize && r.0 + r.1 == nodes
    {
      (nodes[..partitionSize], nodes[partitionSize..])
    }
  }

  /** The position of the first node of a slice that believes it leads. */
  function FirstLeader(nodes: seq<CGNode>): (r: Option<nat>)
    reads NodeSet(nodes)
    ensures r.Some? ==> r.value < |nodes| && nodes[r.value].isLeader
    ensures r.Some? ==> forall k :: 0 <= k < r.value ==> !nodes[k].isLeader
    ensures r.None? <==> forall n :: n in nodes ==> !n.isLeader
    decreases |nodes|
  {
    if nodes == [] then None
    else if nodes[0].isLeader then Some(0)
    else
      match FirstLeader(nodes[1..])
      case None => None
      case Some(i) => Some(i + 1)
  }

  /** However the votes fall, a candidate collects at most one vote per member of the slice. */
  lemma {:induction false} VotesBounded(nodes: seq<CGNode>, candidate: string, electionTerm: nat, self: CGNode)
    requires self in nodes && self.id == candidate
    ensures 1 + VotesOf(nodes, candidate, electionTerm) <= |nodes|
    decreases |nodes|
  {
    var init := nodes[..|nodes| - 1];
    if nodes[|nodes| - 1] != self {
      assert self in init;
      VotesBounded(init, candidate, electionTerm, self);
    }
  }

  /**
   * Counterexample to the "minority cannot elect a leader" claim of
   * `main`: in the two-node slice the group of five splits into, the
   * first node, at the same term as the second, wins the election.
   */
  method MinorityElects(a: CGNode, b: CGNode, now: nat)
    requires a != b && a.id != b.id && a.term == b.term
    modifies a, b
    ensures a.isLeader
  {
    assert VotesOf([a, b][..1], a.id, a.term + 1) == 0;
    a.AttemptLeadership([a, b], now);
  }

  /**
   * With the majority taken of the whole group, a slice holding at most
   * half of the group never elects its candidate.
   */
  method MinorityCannotElect(candidate: CGNode, slice: seq<CGNode>, groupSize: nat, now: nat)
    requires DistinctNodes(slice) && candidate in slice && !candidate.isLeader
    requires 2 * |slice| <= groupSize
    modifies NodeSet(slice)
    ensures !candidate.isLeader
  {
    VotesBounded(slice, candidate.id, candidate.term + 1, candidate);
    candidate.AttemptLeadershipInGroup(slice, groupSize, now);
  }
}
