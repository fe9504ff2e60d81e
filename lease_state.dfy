/**
 * The lease table of src/rhc/leases/state.rs: leases by id, plus an index from
 * a scope's path to the ids of the leases on that path.
 *
 * The pure part states each update on a `Table` value; the class
 * `LeaseState` holds the same two maps as fields and its methods are proved
 * to perform those updates. `HashMap` iteration order is unspecified, so the
 * loops below visit keys in an arbitrary order.
 */
module LeaseTable {
  import opened Wrappers
  import opened Hlc
  import opened Paths
  import opened Leases

  datatype Table = Table(leases: map<LeaseId, Lease>, index: map<Path, seq<LeaseId>>)

  /**
   * What `find_lease_for_path` relies on: every lease is stored under its own
   * id, and every path-scoped lease is listed in the index under its path.
   */
  predicate Consistent(t: Table)
  {
    (forall id :: id in t.leases ==> t.leases[id].id == id) &&
    (forall id :: id in t.leases && !t.leases[id].scope.Block? ==>
       t.leases[id].scope.path in t.index && id in t.index[t.leases[id].scope.path])
  }

  /**
   * The full index invariant: besides `Consistent`, every listed id names a
   * stored lease whose scope path is the index key, and no list is empty.
   */
  predicate WellIndexed(t: Table)
  {
    Consistent(t) &&
    (forall p, id :: p in t.index && id in t.index[p] ==> id in t.leases && ScopePath(t.leases[id].scope) == Some(p)) &&
    (forall p :: p in t.index ==> t.index[p] != [])
  }

  const EmptyTable := Table(map[], map[])

  lemma EmptyTableWellIndexed()
    ensures WellIndexed(EmptyTable)
  {
  }

  /** `add_lease`: store the lease under its id and append the id to its path's list. */
  function TableAdd(t: Table, lease: Lease): Table
  {
    Table(t.leases[lease.id := lease],
          match ScopePath(lease.scope)
          case Some(p) => t.index[p := (if p in t.index then t.index[p] else []) + [lease.id]]
          case None => t.index)
  }

  /** The list `ids` with every occurrence of `id` dropped (`retain(|&x| x != id)`). */
  function Without(ids: seq<LeaseId>, id: LeaseId): (r: seq<LeaseId>)
    ensures forall x :: x in r <==> x in ids && x != id
    ensures |r| <= |ids|
  {
    if ids == [] then []
    else if ids[0] == id then Without(ids[1..], id)
    else [ids[0]] + Without(ids[1..], id)
  }

  /** `remove_lease`: the table without the lease, and the removed lease if there was one. */
  function TableRemove(t: Table, id: LeaseId): (Table, Option<Lease>)
  {
    if id !in t.leases then (t, None)
    else
      var lease := t.leases[id];
      var index :=
        match ScopePath(lease.scope)
        case Some(p) =>
          if p in t.index then
            var rest := Without(t.index[p], id);
            if rest == [] then t.index - {p} else t.index[p := rest]
          else t.index
        case None => t.index;
      (Table(t.leases - {id}, index), Some(lease))
  }

  /**
   * `add_lease` makes the lease retrievable by id, lists it under its path
   * (a block lease leaves the index alone), keeps every other lease, and keeps
   * the index consistent; with a fresh id it also keeps it well indexed.
   */
  lemma AddEffect(t: Table, lease: Lease)
    ensures TableAdd(t, lease).leases == t.leases[lease.id := lease]
    ensures !lease.scope.Block? ==> lease.id in TableAdd(t, lease).index[lease.scope.path]
    ensures lease.scope.Block? ==> TableAdd(t, lease).index == t.index
    ensures Consistent(t) ==> Consistent(TableAdd(t, lease))
    ensures WellIndexed(t) && lease.id !in t.leases ==> WellIndexed(TableAdd(t, lease))
  {
    var t' := TableAdd(t, lease);
    if Consistent(t) {
      forall id | id in t'.leases && !t'.leases[id].scope.Block?
        ensures t'.leases[id].scope.path in t'.index && id in t'.index[t'.leases[id].scope.path]
      {
        if id != lease.id {
          var p := t.leases[id].scope.path;
          assert id in t.index[p];
        }
      }
    }
  }

  /**
   * `remove_lease` returns the lease iff it was present, removes it from the
   * lease map, keeps every other lease, and keeps the index consistent; on a
   * well-indexed table it also drops the id from every list and removes a
   * list it empties.
   */
  lemma RemoveEffect(t: Table, id: LeaseId)
    ensures TableRemove(t, id).1.Some? <==> id in t.leases
    ensures TableRemove(t, id).1.Some? ==> TableRemove(t, id).1.value == t.leases[id]
    ensures TableRemove(t, id).0.leases == t.leases - {id}
    ensures Consistent(t) ==> Consistent(TableRemove(t, id).0)
    ensures WellIndexed(t) ==> WellIndexed(TableRemove(t, id).0)
    ensures WellIndexed(t) ==> forall p :: p in TableRemove(t, id).0.index ==> id !in TableRemove(t, id).0.index[p]
  {
    if id in t.leases {
      var t' := TableRemove(t, id).0;
      var lease := t.leases[id];
      if Consistent(t) {
        forall x | x in t'.leases && !t'.leases[x].scope.Block?
          ensures t'.leases[x].scope.path in t'.index && x in t'.index[t'.leases[x].scope.path]
        {
          var p := t.leases[x].scope.path;
          assert x in t.index[p];
          if ScopePath(lease.scope) == Some(p) {
            assert x in Without(t.index[p], id);
          }
        }
      }
      if WellIndexed(t) {
        forall p | p in t'.index
          ensures id !in t'.index[p]
        {
          if ScopePath(lease.scope) != Some(p) {
            assert t'.index[p] == t.index[p];
          }
        }
      }
    }
  }

  /** A lease the search may return for `path` at `now`: it covers the path and is unexpired. */
  predicate Candidate(lease: Lease, path: Path, now: Timestamp)
  {
    Covers(lease.scope, path) && !IsExpired(lease, now)
  }

  /** The sort key of `find_lease_for_path`: the number of components of the scope's path. */
  function Rank(lease: Lease): nat
  {
    match ScopePath(lease.scope)
    case Some(p) => ComponentCount(p)
    case None => 0
  }

  /** Everything a scope covers has the scope's path as a component prefix (the index's quick check). */
  lemma CoveredPathsExtendScopePath(scope: LeaseScope, path: Path)
    requires Covers(scope, path)
    ensures !scope.Block? && StartsWith(path, scope.path)
  {
    CoversCases(scope, path);
  }

  /** A stored candidate of greatest rank: one result `find_lease_for_path` may give. */
  predicate MostSpecific(t: Table, path: Path, now: Timestamp, lease: Lease)
  {
    lease.id in t.leases && t.leases[lease.id] == lease && Candidate(lease, path, now) &&
    forall id :: id in t.leases && Candidate(t.leases[id], path, now) ==> Rank(t.leases[id]) <= Rank(lease)
  }

  /**
   * The condition under which `can_acquire_lease` refuses a path scope: some
   * stored candidate for the scope's path is at least as specific as the scope.
   */
  predicate Blocked(t: Table, scope: LeaseScope, now: Timestamp)
  {
    !scope.Block? &&
    exists id :: id in t.leases && Candidate(t.leases[id], scope.path, now) && Rank(t.leases[id]) >= |scope.path|
  }

  /** Block scopes never conflict. */
  lemma BlockScopesNeverBlocked(t: Table, name: string, now: Timestamp)
    ensures !Blocked(t, Block(name), now)
  {
  }

  /**
   * Once an unexpired lease on file `p` is stored, another request for the
   * same file is refused.
   */
  lemma StoredFileLeaseBlocks(t: Table, lease: Lease, now: Timestamp)
    requires lease.scope.File? && !IsExpired(lease, now)
    ensures Blocked(TableAdd(t, lease), lease.scope, now)
  {
    var t' := TableAdd(t, lease);
    assert lease.id in t'.leases && Candidate(t'.leases[lease.id], lease.scope.path, now);
  }

  /** `my_leases`: the unexpired leases held by `nodeId`. */
  function MyLeases(t: Table, nodeId: string, now: Timestamp): set<Lease>
  {
    set id | id in t.leases && t.leases[id].holder == nodeId && !IsExpired(t.leases[id], now) :: t.leases[id]
  }

  /** `expiring_soon`: the unexpired leases expiring no later than `(now.physical + within, 0)`. */
  function ExpiringSoon(t: Table, now: Timestamp, withinMs: nat): set<Lease>
  {
    set id | id in t.leases && !IsExpired(t.leases[id], now) && LessEq(t.leases[id].expiresAt, Timestamp(now.physical + withinMs, 0))
      :: t.leases[id]
  }

  /** The lease map after `cleanup_expired`: exactly the unexpired leases. */
  function Unexpired(leases: map<LeaseId, Lease>, now: Timestamp): map<LeaseId, Lease>
  {
    map id | id in leases && !IsExpired(leases[id], now) :: leases[id]
  }

  /**
   * Leases expiring soon are unexpired and expire within the window; and a
   * cleanup at the same time takes none of them, nor any lease of `my_leases`.
   */
  lemma CleanupKeepsLiveLeases(t: Table, nodeId: string, now: Timestamp, withinMs: nat)
    ensures forall l :: l in ExpiringSoon(t, now, withinMs) ==>
              !IsExpired(l, now) && l.expiresAt.physical <= now.physical + withinMs
    ensures MyLeases(Table(Unexpired(t.leases, now), t.index), nodeId, now) == MyLeases(t, nodeId, now)
    ensures ExpiringSoon(Table(Unexpired(t.leases, now), t.index), now, withinMs) == ExpiringSoon(t, now, withinMs)
  {
    var u := Table(Unexpired(t.leases, now), t.index);
    assert forall l :: l in MyLeases(t, nodeId, now) ==> l in MyLeases(u, nodeId, now) by {
      forall l | l in MyLeases(t, nodeId, now) ensures l in MyLeases(u, nodeId, now) {
        var id :| id in t.leases && t.leases[id].holder == nodeId && !IsExpired(t.leases[id], now) && t.leases[id] == l;
        assert id in u.leases;
      }
    }
    assert forall l :: l in ExpiringSoon(t, now, withinMs) ==> l in ExpiringSoon(u, now, withinMs) by {
      forall l | l in ExpiringSoon(t, now, withinMs) ensures l in ExpiringSoon(u, now, withinMs) {
        var id :| id in t.leases && !IsExpired(t.leases[id], now) &&
                  LessEq(t.leases[id].expiresAt, Timestamp(now.physical + withinMs, 0)) && t.leases[id] == l;
        assert id in u.leases;
      }
    }
  }

  /** `LeaseState`: the two maps and the owning node's id. */
  class LeaseState {
    var leases: map<LeaseId, Lease>
    var pathIndex: map<Path, seq<LeaseId>>
    var nodeId: string

    function State(): Table
      reads this
    {
      Table(leases, pathIndex)
    }

    predicate Valid()
      reads this
    {
      Consistent(State())
    }

    /** `LeaseState::new`. */
    constructor (nodeId: string)
      ensures State() == EmptyTable && WellIndexed(State()) && Valid()
      ensures this.nodeId == nodeId
    {
      leases := map[];
      pathIndex := map[];
      this.nodeId := nodeId;
    }

    /** `get_lease`. */
    function GetLease(id: LeaseId): (r: Option<Lease>)
      reads this
      ensures r.Some? <==> id in leases
      ensures r.Some? ==> r.value == leases[id]
    {
      if id in leases then Some(leases[id]) else None
    }

    /** `add_lease`. */
    method AddLease(lease: Lease)
      modifies this
      ensures State() == TableAdd(old(State()), lease)
      ensures nodeId == old(nodeId)
      ensures old(Valid()) ==> Valid()
    {
      AddEffect(State(), lease);
      leases := leases[lease.id := lease];
      var p := ScopePath(lease.scope);
      if p.Some? {
        var ids := if p.value in pathIndex then pathIndex[p.value] else [];
        pathIndex := pathIndex[p.value := ids + [lease.id]];
      }
    }

    /** `remove_lease`. */
    method RemoveLease(id: LeaseId) returns (r: Option<Lease>)
      modifies this
      ensures (State(), r) == TableRemove(old(State()), id)
      ensures nodeId == old(nodeId)
      ensures old(Valid()) ==> Valid()
      ensures old(WellIndexed(State())) ==> WellIndexed(State())
    {
      RemoveEffect(State(), id);
      if id in leases {
        var lease := leases[id];
        leases := leases - {id};
        var p := ScopePath(lease.scope);
        if p.Some? && p.value in pathIndex {
          var rest := Without(pathIndex[p.value], id);
          if rest == [] {
            pathIndex := pathIndex - {p.value};
          } else {
            pathIndex := pathIndex[p.value := rest];
          }
        }
        r := Some(lease);
      } else {
        r := None;
      }
    }

    /** `get_lease_mut(id)` followed by `renew(now, duration)` on the stored lease. */
    method RenewStored(id: LeaseId, now: Timestamp, durationMs: nat)
      requires id in leases
      modifies this
      ensures leases == old(leases)[id := Renew(old(leases)[id], now, durationMs)]
      ensures pathIndex == old(pathIndex) && nodeId == old(nodeId)
      ensures old(Valid()) ==> Valid()
    {
      leases := leases[id := Renew(leases[id], now, durationMs)];
    }

    /**
     * `find_lease_for_path`: scan the index entries whose key is a prefix of
     * `path`, keep covering unexpired leases, and return one of greatest rank
     * (`max_by_key` keeps the last maximum met). The result is none exactly
     * when no stored lease is a candidate.
     */
    method FindLeaseForPath(path: Path, now: Timestamp) returns (r: Option<Lease>)
      requires Valid()
      ensures r.Some? ==> MostSpecific(State(), path, now, r.value)
      ensures r.None? <==> forall id :: id in leases ==> !Candidate(leases[id], path, now)
    {
      r := None;
      var keys := pathIndex.Keys;
      while keys != {}
        invariant keys <= pathIndex.Keys
        invariant r.Some? ==> r.value.id in leases && leases[r.value.id] == r.value && Candidate(r.value, path, now)
        invariant forall id :: id in leases && Candidate(leases[id], path, now) && leases[id].scope.path !in keys ==>
                    r.Some? && Rank(leases[id]) <= Rank(r.value)
        decreases keys
      {
        var key :| key in keys;
        if StartsWith(path, key) || key == path {
          var ids := pathIndex[key];
          var j := 0;
          while j < |ids|
            invariant j <= |ids|
            invariant r.Some? ==> r.value.id in leases && leases[r.value.id] == r.value && Candidate(r.value, path, now)
            invariant forall id :: id in leases && Candidate(leases[id], path, now) && leases[id].scope.path !in keys ==>
                        r.Some? && Rank(leases[id]) <= Rank(r.value)
            invariant forall i :: 0 <= i < j && ids[i] in leases && Candidate(leases[ids[i]], path, now) ==>
                        r.Some? && Rank(leases[ids[i]]) <= Rank(r.value)
          {
            var id := ids[j];
            if id in leases && Candidate(leases[id], path, now) {
              if r.None? || Rank(leases[id]) >= Rank(r.value) {
                r := Some(leases[id]);
              }
            }
            j := j + 1;
          }
          forall id | id in leases && Candidate(leases[id], path, now) && leases[id].scope.path == key
            ensures r.Some? && Rank(leases[id]) <= Rank(r.value)
          {
            assert id in ids;
          }
        } else {
          forall id | id in leases && Candidate(leases[id], path, now)
            ensures leases[id].scope.path != key
          {
            CoveredPathsExtendScopePath(leases[id].scope, path);
          }
        }
        keys := keys - {key};
      }
    }

    /** `my_leases`. */
    function MyLeasesNow(now: Timestamp): (r: set<Lease>)
      reads this
      ensures forall l :: l in r <==> l in leases.Values && l.holder == nodeId && !IsExpired(l, now)
    {
      MyLeases(State(), nodeId, now)
    }

    /**
     * `cleanup_expired`: remove every lease expired at `now` and return the
     * removed leases; the unexpired ones stay as they were.
     */
    method CleanupExpired(now: Timestamp) returns (removed: seq<Lease>)
      modifies this
      ensures leases == Unexpired(old(leases), now)
      ensures forall l :: l in removed <==> l in old(leases).Values && IsExpired(l, now)
      ensures nodeId == old(nodeId)
      ensures old(Valid()) ==> Valid()
      ensures old(WellIndexed(State())) ==> WellIndexed(State())
    {
      ghost var was := leases;
      var expiredIds := set id | id in leases && IsExpired(leases[id], now);
      var pending := expiredIds;
      removed := [];
      while pending != {}
        invariant pending <= expiredIds
        invariant forall id :: id in leases <==> id in was && (id !in expiredIds || id in pending)
        invariant forall id :: id in leases ==> leases[id] == was[id]
        invariant forall l :: l in removed ==> l in was.Values && IsExpired(l, now)
        invariant forall id :: id in expiredIds && id !in pending ==> was[id] in removed
        invariant nodeId == old(nodeId)
        invariant old(Valid()) ==> Valid()
        invariant old(WellIndexed(State())) ==> WellIndexed(State())
        decreases pending
      {
        var id :| id in pending;
        var r := RemoveLease(id);
        removed := removed + [r.value];
        pending := pending - {id};
      }
      assert leases == Unexpired(was, now);
      forall l | l in was.Values && IsExpired(l, now) ensures l in removed {
        var id :| id in was && was[id] == l;
        assert id in expiredIds;
      }
    }

    /**
     * `can_acquire_lease`: a block scope always may; a path scope may unless
     * the most specific candidate for its path is at least as specific as the
     * scope, in which case that candidate is returned.
     */
    method CanAcquireLease(scope: LeaseScope, now: Timestamp) returns (r: Result<(), Lease>)
      requires Valid()
      ensures scope.Block? ==> r.Ok?
      ensures r.Err? <==> Blocked(State(), scope, now)
      ensures r.Err? ==> MostSpecific(State(), scope.path, now, r.error) && !IsMoreSpecificThan(scope, r.error.scope)
    {
      var p := ScopePath(scope);
      if p.Some? {
        var found := FindLeaseForPath(p.value, now);
        if found.Some? {
          CoveredPathsExtendScopePath(found.value.scope, p.value);
          if IsMoreSpecificThan(scope, found.value.scope) {
            r := Ok(());
          } else {
            r := Err(found.value);
          }
        } else {
          r := Ok(());
        }
      } else {
        r := Ok(());
      }
    }
  }
}
