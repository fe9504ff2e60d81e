/**
 * The three-site partition simulation of examples/cap_demo.rs: data nodes
 * that each hold a clock, a lease manager sharing that clock, a store of
 * file versions and a table of which peers they can reach, and the
 * replication and merge steps run across them.
 *
 * The wall clock each clock reads is the parameter `wall`. The locks are
 * left out: every step is one sequential update.
 */
module CapDemo {
  import opened Wrappers
  import opened Hlc
  import opened Paths
  import opened LeaseManagement

  /** `FileData`: a file's content, the clock time it was written at and the writer. */
  datatype FileData = FileData(content: string, version: Timestamp, writer: string)

  /**
   * `merge_data`: last writer wins on the version; on equal versions the
   * remote copy wins.
   */
  function MergeData(local: FileData, remote: FileData): (r: FileData)
    ensures Less(remote.version, local.version) ==> r == local
    ensures !Less(remote.version, local.version) ==> r == remote
  {
    if Less(remote.version, local.version) then local else remote
  }

  /** The merged copy is one of the two and carries the later version of both. */
  lemma MergeKeepsLatest(local: FileData, remote: FileData)
    ensures MergeData(local, remote) == local || MergeData(local, remote) == remote
    ensures LessEq(local.version, MergeData(local, remote).version)
    ensures LessEq(remote.version, MergeData(local, remote).version)
  {
    OrderIsStrictTotal(local.version, remote.version, local.version);
  }

  /** With distinct versions the merge does not depend on which copy is local; a copy merged with itself is itself. */
  lemma MergeSymmetric(a: FileData, b: FileData)
    ensures a.version != b.version ==> MergeData(a, b) == MergeData(b, a)
    ensures MergeData(a, a) == a
  {
    OrderIsStrictTotal(a.version, b.version, a.version);
  }

  /**
   * The reconciliation at the end of `main`: start from the first copy
   * and move to a later one only when its version is strictly greater.
   */
  function LatestOf(first: FileData, second: FileData, third: FileData): (r: FileData)
    ensures r == first || r == second || r == third
    ensures LessEq(first.version, r.version) && LessEq(second.version, r.version) && LessEq(third.version, r.version)
    ensures !Less(first.version, second.version) && !Less(first.version, third.version) ==> r == first
    ensures Less(first.version, third.version) && Less(second.version, third.version) ==> r == third
  {
    var afterSecond := if Less(first.version, second.version) then second else first;
    var r := if Less(afterSecond.version, third.version) then third else afterSecond;
    OrderIsStrictTotal(first.version, second.version, third.version);
    OrderIsStrictTotal(afterSecond.version, third.version, first.version);
    OrderIsStrictTotal(first.version, afterSecond.version, third.version);
    r
  }

  /** A site of the simulation (`DataNode`). */
  class DataNode {
    const id: string
    const hlc: Clock
    const leaseMgr: LeaseManager
    var dataStore: map<Path, FileData>
    var connectivity: map<string, bool>

    /** The lease manager is this node's and shares its clock. */
    ghost predicate Valid()
      reads this, leaseMgr, leaseMgr.state
    {
      leaseMgr.Valid() && leaseMgr.hlc == hlc && leaseMgr.nodeId == id
    }

    /** `DataNode::new`: a fresh clock at zero, a lease manager over it, nothing stored, no connectivity recorded. */
    constructor (id: string)
      ensures Valid() && fresh(hlc) && fresh(leaseMgr) && fresh(leaseMgr.state)
      ensures this.id == id && hlc.State() == ClockState(0, 0) && leaseMgr.state.State() == LeaseTable.EmptyTable
      ensures dataStore == map[] && connectivity == map[]
    {
      this.id := id;
      var clock := new Clock();
      hlc := clock;
      leaseMgr := new LeaseManager(id, clock);
      dataStore := map[];
      connectivity := map[];
    }

    /** `set_connectivity`: record whether `toNode` can be reached. */
    method SetConnectivity(toNode: string, connected: bool)
      modifies this
      ensures connectivity == old(connectivity)[toNode := connected]
      ensures dataStore == old(dataStore)
      ensures CanReach(toNode) == connected
    {
      connectivity := connectivity[toNode := connected];
    }

    /** `can_reach`: what the table records, and reachable when it records nothing. */
    function CanReach(node: string): (r: bool)
      reads this
      ensures node !in connectivity ==> r
      ensures node in connectivity ==> r == connectivity[node]
    {
      if node in connectivity then connectivity[node] else true
    }

    /**
     * `write`: without a write lease for the path the write is refused and
     * nothing is stored; with one the clock ticks and the path holds the
     * content at the new time, written by this node.
     */
    method Write(path: Path, content: string, wall: nat) returns (r: Result<(), string>)
      requires Valid()
      modifies this, hlc
      ensures Valid()
      ensures StateLess(old(hlc.State()), hlc.State())
      ensures r.Err? ==> r == Err("No write lease") && dataStore == old(dataStore)
      ensures r.Ok? ==> dataStore == old(dataStore)[path := FileData(content, hlc.Last(), id)]
      ensures r.Ok? ==> exists l :: LeaseTable.MostSpecific(leaseMgr.state.State(), path, Stamp(NextNow(old(hlc.State()), wall)), l) && l.holder == id
      ensures connectivity == old(connectivity)
    {
      var allowed := leaseMgr.CanWrite(path, wall);
      if !allowed {
        return Err("No write lease");
      }
      var timestamp := hlc.Now(wall);
      dataStore := dataStore[path := FileData(content, timestamp, id)];
      r := Ok(());
    }

    /** `read`: the stored copy of the path, if any. */
    function Read(path: Path): (r: Option<FileData>)
      reads this
      ensures r.Some? <==> path in dataStore
      ensures r.Some? ==> r.value == dataStore[path]
    {
      if path in dataStore then Some(dataStore[path]) else None
    }
  }

  /**
   * `replicate_data`: when `to` is reachable from `from` and `from` holds
   * the path, `to`'s clock takes in the copy's version (a refused update is
   * ignored) and `to` stores the copy as it is, replacing its own without
   * merging. Otherwise nothing changes and the answer is false.
   */
  method ReplicateData(from: DataNode, to: DataNode, path: Path, wall: nat) returns (r: bool)
    modifies to, to.hlc
    ensures r <==> old(from.CanReach(to.id)) && path in old(from.dataStore)
    ensures r ==> to.dataStore == old(to.dataStore)[path := old(from.dataStore[path])]
    ensures r ==> to.hlc.State() == StateAfterUpdate(old(to.hlc.State()), old(from.dataStore[path]).version, wall)
    ensures !r ==> to.dataStore == old(to.dataStore) && to.hlc.State() == old(to.hlc.State())
    ensures to.connectivity == old(to.connectivity)
  {
    if !from.CanReach(to.id) {
      return false;
    }
    var found := from.Read(path);
    if found.Some? {
      var data := found.value;
      var ignored := to.hlc.Update(data.version, wall);
      to.dataStore := to.dataStore[path := data];
      r := true;
    } else {
      r := false;
    }
  }

  /**
   * `replicate_via_relay`: only when `from` reaches the relay and the
   * relay reaches `to` is the copy sent in two hops, and it succeeds only
   * when both hops do; `to` then holds the copy `from` held.
   */
  method ReplicateViaRelay(from: DataNode, relay: DataNode, to: DataNode, path: Path, wall: nat) returns (r: bool)
    modifies relay, relay.hlc, to, to.hlc
    ensures !(old(from.CanReach(relay.id)) && old(relay.CanReach(to.id))) ==>
      !r && relay.dataStore == old(relay.dataStore) && to.dataStore == old(to.dataStore)
    ensures r ==> old(from.CanReach(relay.id)) && old(relay.CanReach(to.id)) && path in old(from.dataStore)
    ensures r ==> path in old(from.dataStore) && path in to.dataStore && to.dataStore[path] == old(from.dataStore[path])
    ensures old(from.CanReach(relay.id)) && old(relay.CanReach(to.id)) && path in old(from.dataStore) ==> r
  {
    if from.CanReach(relay.id) && relay.CanReach(to.id) {
      var first := ReplicateData(from, relay, path, wall);
      if first {
        assert relay.dataStore[path] == old(from.dataStore[path]);
        r := ReplicateData(relay, to, path, wall);
        return r;
      }
    }
    r := false;
  }
}
