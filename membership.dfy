/**
 * The membership protocol of examples/membership_changes.rs: a group's
 * configuration (an epoch, the members with their states and heartbeats,
 * a leader), and the join, leave, failure-detection and partition steps.
 *
 * `Instant` readings are millisecond counts passed in as `now`; the
 * sleeps of the source only separate those readings. The order in which a
 * `HashMap` yields its keys is a parameter: a listing of the members'
 * names, each once. Removing a key keeps the order of the others, as the
 * map's iteration does. Printing is not modelled.
 */
module Membership {
  import opened Wrappers

  /** `NodeState`. */
  datatype NodeState = Joining | Active | Leaving | Failed

  /** `NodeInfo`, with its two `Instant`s as millisecond counts. */
  datatype NodeInfo = NodeInfo(id: string, state: NodeState, lastHeartbeat: nat, joinedAt: nat)

  type Members = map<string, NodeInfo>

  /** `heartbeat_timeout`: 500 ms. */
  const HeartbeatTimeout: nat := 500

  /** `order` lists every member once and nothing else: an iteration order of the map. */
  ghost predicate Enumerates(order: seq<string>, m: Members)
  {
    Distinct(order) && (forall x :: x in m <==> x in order)
  }

  /** No name is listed twice. */
  predicate Distinct(s: seq<string>)
  {
    forall i, j :: 0 <= i < j < |s| ==> s[i] != s[j]
  }

  /** A node whose last heartbeat is more than the timeout before `now`. */
  predicate TimedOut(info: NodeInfo, now: nat)
  {
    now > info.lastHeartbeat + HeartbeatTimeout
  }

  /** An active member that missed its heartbeats. */
  predicate Expired(m: Members, x: string, now: nat)
  {
    x in m && m[x].state == Active && TimedOut(m[x], now)
  }

  /** The first pass of `detect_failures`: the expired members, in iteration order. */
  function FailedNodes(order: seq<string>, m: Members, now: nat): (r: seq<string>)
    ensures forall x :: x in r <==> x in order && Expired(m, x, now)
    ensures Distinct(order) ==> Distinct(r)
    decreases |order|
  {
    if order == [] then []
    else
      var x := order[|order| - 1];
      FailedNodes(order[..|order| - 1], m, now) + (if Expired(m, x, now) then [x] else [])
  }

  /** The first member in iteration order, the one `keys().next()` yields. */
  function FirstMember(order: seq<string>, m: Members): (r: Option<string>)
    ensures r.Some? ==> r.value in m && r.value in order
    ensures r.None? ==> forall x :: x in order ==> x !in m
    decreases |order|
  {
    if order == [] then None
    else if order[0] in m then Some(order[0])
    else FirstMember(order[1..], m)
  }

  /** The first active member in iteration order, the one `find` yields. */
  function FirstActive(order: seq<string>, m: Members): (r: Option<string>)
    ensures r.Some? ==> r.value in m && m[r.value].state == Active && r.value in order
    ensures r.None? ==> forall x :: x in order && x in m ==> m[x].state != Active
    decreases |order|
  {
    if order == [] then None
    else if order[0] in m && m[order[0]].state == Active then Some(order[0])
    else FirstActive(order[1..], m)
  }

  /** Removing a member other than the first active one leaves the first active one. */
  lemma {:induction false} FirstActiveRemove(order: seq<string>, m: Members, x: string)
    requires FirstActive(order, m) != Some(x)
    ensures FirstActive(order, m - {x}) == FirstActive(order, m)
    decreases |order|
  {
    if order != [] && !(order[0] in m && m[order[0]].state == Active) {
      FirstActiveRemove(order[1..], m, x);
    }
  }

  /** When every member is active, the first member is the first active one. */
  lemma {:induction false} FirstMemberIsFirstActive(order: seq<string>, m: Members)
    requires forall x :: x in m ==> m[x].state == Active
    ensures FirstMember(order, m) == FirstActive(order, m)
    decreases |order|
  {
    if order != [] && order[0] !in m {
      FirstMemberIsFirstActive(order[1..], m);
    }
  }

  /** `simulate_partition` on `total` active nodes: whether side A, of `total / 2` nodes, and side B can progress. */
  function PartitionProgress(total: nat): (bool, bool)
  {
    var partitionSize := total / 2;
    (partitionSize > total / 2, total - partitionSize > total / 2)
  }

  /** Side A never has a majority; side B has one iff the total is odd, so an even split stalls both. */
  lemma PartitionMajority(total: nat)
    ensures !PartitionProgress(total).0
    ensures PartitionProgress(total).1 <==> total % 2 == 1
  {
  }

  /** The active members, in iteration order. */
  function ActiveNodes(order: seq<string>, m: Members): (r: seq<string>)
    ensures forall x :: x in r <==> x in order && x in m && m[x].state == Active
    ensures Distinct(order) ==> Distinct(r)
    decreases |order|
  {
    if order == [] then []
    else
      var x := order[|order| - 1];
      ActiveNodes(order[..|order| - 1], m) + (if x in m && m[x].state == Active then [x] else [])
  }

  /** The members of a new group: every initial node, active, with both readings at `now`. */
  function InitialMembers(nodes: seq<string>, now: nat): (r: Members)
    ensures forall x :: x in r <==> x in nodes
    ensures forall x :: x in r ==> r[x] == NodeInfo(x, Active, now, now)
    decreases |nodes|
  {
    if nodes == [] then map[]
    else
      var x := nodes[|nodes| - 1];
      InitialMembers(nodes[..|nodes| - 1], now)[x := NodeInfo(x, Active, now, now)]
  }

  /** A distinct listing of a set has as many entries as the set. */
  lemma {:induction false} DistinctCount(order: seq<string>)
    requires Distinct(order)
    ensures |set x | x in order| == |order|
    decreases |order|
  {
    if order != [] {
      var init := order[..|order| - 1];
      var last := order[|order| - 1];
      DistinctCount(init);
      assert (set x | x in order) == (set x | x in init) + {last};
      assert last !in (set x | x in init);
    }
  }

  /**
   * The second pass of `detect_failures`: each listed node is marked
   * failed and removed in turn, and a removed leader is replaced by the
   * first active member left at that point.
   */
  method RemoveFailed(members: Members, leader: Option<string>, failedNodes: seq<string>, order: seq<string>)
    returns (m: Members, l: Option<string>)
    ensures forall x :: x in m <==> x in members && x !in failedNodes
    ensures forall x :: x in m ==> m[x] == members[x]
    ensures leader.Some? && leader.value in failedNodes ==> l == FirstActive(order, m)
    ensures !(leader.Some? && leader.value in failedNodes) ==> l == leader
  {
    m, l := members, leader;
    var k := 0;
    while k < |failedNodes|
      invariant 0 <= k <= |failedNodes|
      invariant forall x :: x in m <==> x in members && x !in failedNodes[..k]
      invariant forall x :: x in m ==> m[x] == members[x]
      invariant leader.Some? && leader.value in failedNodes[..k] ==> l == FirstActive(order, m)
      invariant !(leader.Some? && leader.value in failedNodes[..k]) ==> l == leader
    {
      var nodeId := failedNodes[k];
      assert failedNodes[..k + 1] == failedNodes[..k] + [nodeId];
      ghost var before := m;
      if nodeId in m {
        m := m[nodeId := m[nodeId].(state := Failed)];
      }
      m := m - {nodeId};
      assert m == before - {nodeId};
      if l == Some(nodeId) {
        l := FirstActive(order, m);
      } else if leader.Some? && leader.value in failedNodes[..k] {
        FirstActiveRemove(order, before, nodeId);
      }
      k := k + 1;
    }
    assert failedNodes[..k] == failedNodes;
  }

  /** In a configuration every member is active under its own name, and the leader is a member. */
  ghost predicate Stable(members: Members, leader: Option<string>)
  {
    (forall x :: x in members ==> members[x].state == Active && members[x].id == x) &&
    (leader.Some? ==> leader.value in members)
  }

  /** `ConsensusGroup` with its `MembershipConfig`. */
  class ConsensusGroup {
    const id: string
    var epoch: nat
    var members: Members
    var leader: Option<string>

    ghost predicate Valid()
      reads this
    {
      Stable(members, leader)
    }

    /** `ConsensusGroup::new`: every initial node active, epoch 1, the first node leading. */
    constructor (id: string, initialNodes: seq<string>, now: nat)
      ensures Valid()
      ensures this.id == id && epoch == 1 && members == InitialMembers(initialNodes, now)
      ensures leader == if initialNodes == [] then None else Some(initialNodes[0])
    {
      var m: Members := map[];
      var i := 0;
      while i < |initialNodes|
        invariant 0 <= i <= |initialNodes|
        invariant m == InitialMembers(initialNodes[..i], now)
      {
        var nodeId := initialNodes[i];
        assert initialNodes[..i + 1][..i] == initialNodes[..i];
        m := m[nodeId := NodeInfo(nodeId, Active, now, now)];
        i := i + 1;
      }
      assert initialNodes[..i] == initialNodes;
      this.id := id;
      epoch := 1;
      members := m;
      leader := if initialNodes == [] then None else Some(initialNodes[0]);
    }

    /**
     * `handle_join`: a node already in the group is refused and nothing
     * changes; otherwise it is added as joining, the epoch moves on, and
     * it is made active.
     */
    method HandleJoin(newNodeId: string, now: nat) returns (r: Result<(), string>)
      requires Valid()
      modifies this
      ensures Valid()
      ensures newNodeId in old(members) ==>
        r == Err("Node already in group") && members == old(members) && epoch == old(epoch)
      ensures newNodeId !in old(members) ==>
        r == Ok(()) && members == old(members)[newNodeId := NodeInfo(newNodeId, Active, now, now)] &&
        epoch == old(epoch) + 1
      ensures leader == old(leader)
    {
      if newNodeId in members {
        return Err("Node already in group");
      }
      members := members[newNodeId := NodeInfo(newNodeId, Joining, now, now)];
      epoch := epoch + 1;
      members := members[newNodeId := members[newNodeId].(state := Active)];
      r := Ok(());
    }

    /**
     * `handle_leave`: a non-member or a non-active member is refused and
     * nothing changes; otherwise the node is marked leaving and removed,
     * the epoch moves on, and a departing leader is replaced by the first
     * remaining member, or by none.
     */
    method HandleLeave(nodeId: string, order: seq<string>) returns (r: Result<(), string>)
      requires Enumerates(order, members)
      modifies this
      ensures nodeId !in old(members) ==> r == Err("Node not in group")
      ensures nodeId in old(members) && old(members)[nodeId].state != Active ==> r == Err("Node not active")
      ensures r.Err? ==> members == old(members) && epoch == old(epoch) && leader == old(leader)
      ensures r.Ok? <==> nodeId in old(members) && old(members)[nodeId].state == Active
      ensures r.Ok? ==>
        members == old(members) - {nodeId} && epoch == old(epoch) + 1 &&
        leader == if old(leader) == Some(nodeId) then FirstMember(order, members) else old(leader)
      ensures old(Valid()) ==> Valid()
    {
      if nodeId !in members {
        return Err("Node not in group");
      }
      if members[nodeId].state != Active {
        return Err("Node not active");
      }
      members := members[nodeId := members[nodeId].(state := Leaving)];
      epoch := epoch + 1;
      members := members - {nodeId};
      if leader == Some(nodeId) {
        leader := FirstMember(order, members);
      }
      r := Ok(());
    }

    /**
     * `detect_failures` at `now`: every active member that missed its
     * heartbeats is marked failed and removed, one at a time, each removal
     * moving the epoch on; a removed leader is replaced by the first
     * active member then left. Every other member is kept as it was.
     */
    method DetectFailures(now: nat, order: seq<string>)
      requires Enumerates(order, members)
      modifies this
      ensures forall x :: x in members <==> x in old(members) && !Expired(old(members), x, now)
      ensures forall x :: x in members ==> members[x] == old(members)[x]
      ensures epoch == old(epoch) + |FailedNodes(order, old(members), now)|
      ensures old(leader).Some? && Expired(old(members), old(leader).value, now) ==>
        leader == FirstActive(order, members)
      ensures !(old(leader).Some? && Expired(old(members), old(leader).value, now)) ==> leader == old(leader)
      ensures old(Valid()) ==> Valid()
    {
      var failedNodes := CollectFailed(now, order);
      ghost var m0 := members;
      var m, l := RemoveFailed(members, leader, failedNodes, order);
      assert forall x :: x in m0 ==> (Expired(m0, x, now) <==> x in failedNodes);
      members, leader, epoch := m, l, epoch + |failedNodes|;
    }

    /** The first pass of `detect_failures`: the active members past the timeout, in iteration order. */
    method CollectFailed(now: nat, order: seq<string>) returns (failedNodes: seq<string>)
      ensures failedNodes == FailedNodes(order, members, now)
    {
      failedNodes := [];
      var i := 0;
      while i < |order|
        invariant 0 <= i <= |order|
        invariant failedNodes == FailedNodes(order[..i], members, now)
      {
        assert order[..i + 1][..i] == order[..i];
        var nodeId := order[i];
        if nodeId in members && members[nodeId].state == Active && now > members[nodeId].lastHeartbeat + HeartbeatTimeout {
          failedNodes := failedNodes + [nodeId];
        }
        i := i + 1;
      }
      assert order[..i] == order;
    }

    /** `update_heartbeat`: a member's last heartbeat becomes `now`; nothing else changes. */
    method UpdateHeartbeat(nodeId: string, now: nat)
      modifies this
      ensures nodeId in old(members) ==> members == old(members)[nodeId := old(members)[nodeId].(lastHeartbeat := now)]
      ensures nodeId !in old(members) ==> members == old(members)
      ensures epoch == old(epoch) && leader == old(leader)
      ensures old(Valid()) ==> Valid()
    {
      if nodeId in members {
        members := members[nodeId := members[nodeId].(lastHeartbeat := now)];
      }
    }

    /** `simulate_partition`: the active members split in half, and whether each half can progress. */
    method SimulatePartition(order: seq<string>) returns (total: nat, aCanProgress: bool, bCanProgress: bool)
      requires Enumerates(order, members)
      ensures total == |ActiveNodes(order, members)|
      ensures (aCanProgress, bCanProgress) == PartitionProgress(total)
    {
      var activeNodes: seq<string> := [];
      var i := 0;
      while i < |order|
        invariant 0 <= i <= |order|
        invariant activeNodes == ActiveNodes(order[..i], members)
      {
        assert order[..i + 1][..i] == order[..i];
        if order[i] in members && members[order[i]].state == Active {
          activeNodes := activeNodes + [order[i]];
        }
        i := i + 1;
      }
      assert order[..i] == order;
      total := |activeNodes|;
      var partitionSize := total / 2;
      aCanProgress := partitionSize > total / 2;
      bCanProgress := total - partitionSize > total / 2;
    }
  }

  /** `order` lists the names of `names`, each once. */
  ghost predicate Lists(order: seq<string>, names: set<string>)
  {
    Distinct(order) && (forall x :: x in order <==> x in names)
  }

  /** A listing of a set is as long as the set is large. */
  lemma ListsCount(order: seq<string>, names: set<string>)
    requires Lists(order, names)
    ensures |order| == |names|
  {
    DistinctCount(order);
    assert (set x | x in order) == names;
  }

  /** Four different node names. */
  predicate FourNames(n1: string, n2: string, n3: string, n4: string)
  {
    n1 != n2 && n1 != n3 && n1 != n4 && n2 != n3 && n2 != n4 && n3 != n4
  }

  /**
   * The first steps of `main`, on nodes `n1` to `n4` ("node-1" to
   * "node-4" there): a group of `n1`, `n2` and `n3` created at `t0`, and
   * `n4` joining at `tJoin`.
   */
  method FormAndJoin(n1: string, n2: string, n3: string, n4: string, t0: nat, tJoin: nat)
    returns (group: ConsensusGroup)
    requires FourNames(n1, n2, n3, n4)
    ensures fresh(group) && group.Valid()
    ensures group.epoch == 2 && group.leader == Some(n1)
    ensures group.members.Keys == {n1, n2, n3, n4}
    ensures group.members[n3].lastHeartbeat == t0
  {
    group := new ConsensusGroup("DataCG", [n1, n2, n3], t0);
    assert group.members.Keys == {n1, n2, n3};
    var joined := group.HandleJoin(n4, tJoin);
  }

  /**
   * The steps `main` takes before detecting failures: after
   * `FormAndJoin`, `n2` leaves, then `n1` and `n4` send heartbeats at
   * `tBeat`.
   */
  method Prelude(n1: string, n2: string, n3: string, n4: string, t0: nat, tJoin: nat, tBeat: nat, leaveOrder: seq<string>)
    returns (group: ConsensusGroup)
    requires FourNames(n1, n2, n3, n4)
    requires Lists(leaveOrder, {n1, n2, n3, n4})
    ensures fresh(group) && group.Valid()
    ensures group.epoch == 3 && group.leader == Some(n1)
    ensures group.members.Keys == {n1, n3, n4}
    ensures group.members[n1].lastHeartbeat == tBeat && group.members[n4].lastHeartbeat == tBeat
    ensures group.members[n3].lastHeartbeat == t0
  {
    group := FormAndJoin(n1, n2, n3, n4, t0, tJoin);
    var left := group.HandleLeave(n2, leaveOrder);
    assert group.members.Keys == {n1, n3, n4};
    group.UpdateHeartbeat(n1, tBeat);
    group.UpdateHeartbeat(n4, tBeat);
  }

  /** Detection when only `n3` is past the timeout: it alone is removed, and `n1` keeps leading. */
  method DetectOnlyN3(group: ConsensusGroup, n1: string, n3: string, n4: string, now: nat, detectOrder: seq<string>)
    requires group.Valid() && group.epoch == 3 && group.leader == Some(n1)
    requires group.members.Keys == {n1, n3, n4} && n1 != n3 && n3 != n4 && n1 != n4
    requires Expired(group.members, n3, now) && !Expired(group.members, n1, now) && !Expired(group.members, n4, now)
    requires Lists(detectOrder, {n1, n3, n4})
    modifies group
    ensures group.Valid() && group.epoch == 4 && group.leader == Some(n1) && group.members.Keys == {n1, n4}
  {
    ghost var m := group.members;
    group.DetectFailures(now, detectOrder);
    ghost var failed := FailedNodes(detectOrder, m, now);
    assert Lists(failed, {n3});
    ListsCount(failed, {n3});
  }

  /** Detection when all three members are past the timeout: each is removed and no leader is left. */
  method DetectAll(group: ConsensusGroup, n1: string, n3: string, n4: string, now: nat, detectOrder: seq<string>)
    requires group.Valid() && group.epoch == 3
    requires group.members.Keys == {n1, n3, n4} && n1 != n3 && n3 != n4 && n1 != n4
    requires Expired(group.members, n1, now) && Expired(group.members, n3, now) && Expired(group.members, n4, now)
    requires Lists(detectOrder, {n1, n3, n4})
    modifies group
    ensures group.Valid() && group.epoch == 6 && group.leader == None && group.members == map[]
  {
    ghost var m := group.members;
    group.DetectFailures(now, detectOrder);
    ghost var failed := FailedNodes(detectOrder, m, now);
    assert Lists(failed, {n1, n3, n4});
    ListsCount(failed, {n1, n3, n4});
    assert group.members.Keys == {};
  }

  /** `simulate_partition` on two active members: neither half of one node can progress. */
  method PartitionOfTwo(group: ConsensusGroup, n1: string, n4: string, partitionOrder: seq<string>)
    returns (total: nat, aCanProgress: bool, bCanProgress: bool)
    requires group.Valid() && group.members.Keys == {n1, n4} && n1 != n4
    requires Lists(partitionOrder, {n1, n4})
    ensures total == 2 && !aCanProgress && !bCanProgress
  {
    total, aCanProgress, bCanProgress := group.SimulatePartition(partitionOrder);
    ghost var active := ActiveNodes(partitionOrder, group.members);
    assert Lists(active, {n1, n4});
    ListsCount(active, {n1, n4});
  }

  /**
   * `main` as written: the heartbeats of `n1` and `n4` are sent before
   * the 600 ms wait, so at detection every remaining node has been silent
   * past the timeout and all three are removed: the group is left empty
   * and leaderless after six epochs, and the partition check sees no
   * nodes at all.
   */
  method MembershipDemo(n1: string, n2: string, n3: string, n4: string, t0: nat, tJoin: nat, tBeat: nat, tDetect: nat,
                        leaveOrder: seq<string>, detectOrder: seq<string>)
    returns (epoch: nat, members: Members, leader: Option<string>, total: nat, aCanProgress: bool, bCanProgress: bool)
    requires FourNames(n1, n2, n3, n4)
    requires t0 + 200 <= tJoin <= tBeat && tBeat + 600 <= tDetect
    requires Lists(leaveOrder, {n1, n2, n3, n4})
    requires Lists(detectOrder, {n1, n3, n4})
    ensures epoch == 6 && members == map[] && leader == None
    ensures total == 0 && !aCanProgress && !bCanProgress
  {
    var group := Prelude(n1, n2, n3, n4, t0, tJoin, tBeat, leaveOrder);
    DetectAll(group, n1, n3, n4, tDetect, detectOrder);
    total, aCanProgress, bCanProgress := group.SimulatePartition([]);
    epoch, members, leader := group.epoch, group.members, group.leader;
  }

  /**
   * `main` as its comments intend: `n1` and `n4` send their heartbeats
   * after the wait, just before detection, so `n3` alone is removed and
   * `n1` keeps leading two members after four epochs; an even split of
   * two still stalls both sides.
   */
  method IntendedMembershipDemo(n1: string, n2: string, n3: string, n4: string, t0: nat, tJoin: nat, tBeat: nat, tDetect: nat,
                                leaveOrder: seq<string>, detectOrder: seq<string>, partitionOrder: seq<string>)
    returns (epoch: nat, members: Members, leader: Option<string>, total: nat, aCanProgress: bool, bCanProgress: bool)
    requires FourNames(n1, n2, n3, n4)
    requires t0 + 200 <= tJoin && tJoin + 600 <= tBeat <= tDetect <= tBeat + HeartbeatTimeout
    requires Lists(leaveOrder, {n1, n2, n3, n4})
    requires Lists(detectOrder, {n1, n3, n4})
    requires Lists(partitionOrder, {n1, n4})
    ensures epoch == 4 && members.Keys == {n1, n4} && leader == Some(n1)
    ensures total == 2 && !aCanProgress && !bCanProgress
  {
    var group := Prelude(n1, n2, n3, n4, t0, tJoin, tBeat, leaveOrder);
    DetectOnlyN3(group, n1, n3, n4, tDetect, detectOrder);
    total, aCanProgress, bCanProgress := PartitionOfTwo(group, n1, n4, partitionOrder);
    epoch, members, leader := group.epoch, group.members, group.leader;
  }
}
