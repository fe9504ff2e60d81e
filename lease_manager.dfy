/**
 * The lease manager of src/rhc/leases/manager.rs.
 *
 * Each operation that reads `self.hlc.now()` takes the wall-clock reading
 * `wall` that the clock would see; the generated `LeaseId::new()` of an
 * acquired lease is the parameter `id`. The mutexes are left out: every
 * method is one sequential update of the clock, the lease table and the
 * delegation map.
 */
module LeaseManagement {
  import opened Wrappers
  import opened Hlc
  import opened Paths
  import opened Leases
  import opened LeaseTable
  import opened Bytes

  /** A pre-committed approval for delegation; the signature is always empty. */
  datatype DelegationApproval = DelegationApproval(
    pathPattern: string,
    approvedFor: string,
    validUntil: Timestamp,
    signature: seq<Byte>)

  datatype LeaseError =
    | Conflict(existing: LeaseId)
    | Expired(leaseId: LeaseId)
    | Unauthorized
    | NotFound(leaseId: LeaseId)

  /** `renew_lease` on the table at time `now`: its result and the new table. */
  function RenewOutcome(t: Table, nodeId: string, id: LeaseId, now: Timestamp, durationMs: nat): (Result<(), LeaseError>, Table)
  {
    if id !in t.leases then (Err(NotFound(id)), t)
    else if t.leases[id].holder != nodeId then (Err(Unauthorized), t)
    else if IsExpired(t.leases[id], now) then (Err(Expired(id)), t)
    else (Ok(()), Table(t.leases[id := Renew(t.leases[id], now, durationMs)], t.index))
  }

  /**
   * `renew_lease` reports an unknown id, a foreign holder and an expired lease
   * in that order, and changes nothing then; otherwise it renews exactly that
   * lease, leaves the index alone and keeps the table consistent.
   */
  lemma RenewOutcomes(t: Table, nodeId: string, id: LeaseId, now: Timestamp, durationMs: nat)
    ensures var (r, t') := RenewOutcome(t, nodeId, id, now, durationMs);
            (id !in t.leases ==> r == Err(NotFound(id))) &&
            (id in t.leases && t.leases[id].holder != nodeId ==> r == Err(Unauthorized)) &&
            (id in t.leases && t.leases[id].holder == nodeId && IsExpired(t.leases[id], now) ==> r == Err(Expired(id))) &&
            (r.Err? ==> t' == t) &&
            (r.Ok? ==> id in t.leases && t'.leases == t.leases[id := Renew(t.leases[id], now, durationMs)])
    ensures var (r, t') := RenewOutcome(t, nodeId, id, now, durationMs);
            r.Ok? && durationMs > 0 ==> id in t'.leases && !IsExpired(t'.leases[id], now) && t'.leases[id].holder == nodeId
    ensures Consistent(t) ==> Consistent(RenewOutcome(t, nodeId, id, now, durationMs).1)
  {
  }

  /** `release_lease`: its result and the new table. */
  function ReleaseOutcome(t: Table, nodeId: string, id: LeaseId): (Result<(), LeaseError>, Table)
  {
    if id !in t.leases then (Err(NotFound(id)), t)
    else if t.leases[id].holder != nodeId then (Err(Unauthorized), t)
    else (Ok(()), TableRemove(t, id).0)
  }

  /**
   * `release_lease` refuses an unknown id or a foreign holder without change;
   * otherwise the lease is gone, and a later renew of that id is `NotFound`.
   */
  lemma ReleaseThenRenew(t: Table, nodeId: string, id: LeaseId, now: Timestamp, durationMs: nat)
    ensures var (r, t') := ReleaseOutcome(t, nodeId, id);
            (r.Err? <==> id !in t.leases || t.leases[id].holder != nodeId) &&
            (r.Err? ==> t' == t) &&
            (r.Ok? ==> t'.leases == t.leases - {id} && RenewOutcome(t', nodeId, id, now, durationMs).0 == Err(NotFound(id)))
  {
    RemoveEffect(t, id);
  }

  /** `leases_needing_renewal`: the own leases among those expiring soon. */
  function NeedingRenewal(t: Table, nodeId: string, now: Timestamp, withinMs: nat): set<Lease>
  {
    set l | l in ExpiringSoon(t, now, withinMs) && l.holder == nodeId
  }

  /** The leases needing renewal are exactly the own unexpired leases expiring within the window. */
  lemma NeedingRenewalIsMineExpiring(t: Table, nodeId: string, now: Timestamp, withinMs: nat)
    ensures NeedingRenewal(t, nodeId, now, withinMs) == MyLeases(t, nodeId, now) * ExpiringSoon(t, now, withinMs)
  {
    forall l | l in MyLeases(t, nodeId, now) * ExpiringSoon(t, now, withinMs)
      ensures l in NeedingRenewal(t, nodeId, now, withinMs)
    {
      var id :| id in t.leases && t.leases[id].holder == nodeId && !IsExpired(t.leases[id], now) && t.leases[id] == l;
    }
    forall l | l in NeedingRenewal(t, nodeId, now, withinMs)
      ensures l in MyLeases(t, nodeId, now)
    {
      var id :| id in t.leases && !IsExpired(t.leases[id], now) &&
                LessEq(t.leases[id].expiresAt, Timestamp(now.physical + withinMs, 0)) && t.leases[id] == l;
      assert t.leases[id].holder == nodeId;
    }
  }

  /** The delegations kept by `cleanup`: those still valid after `now`. */
  function LiveDelegations(d: map<(string, string), DelegationApproval>, now: Timestamp): map<(string, string), DelegationApproval>
  {
    map k | k in d && Less(now, d[k].validUntil) :: d[k]
  }

  /** `cleanup` drops exactly the approvals with `valid_until <= now` and keeps the rest unchanged. */
  lemma CleanupDelegations(d: map<(string, string), DelegationApproval>, now: Timestamp, k: (string, string))
    ensures k in LiveDelegations(d, now) <==> k in d && !LessEq(d[k].validUntil, now)
    ensures k in LiveDelegations(d, now) ==> LiveDelegations(d, now)[k] == d[k]
  {
    if k in d {
      OrderIsStrictTotal(now, d[k].validUntil, now);
    }
  }

  /**
   * The acquisition test of lines 209-224: on an empty table a fresh lease on
   * a file is the one most specific lease for that file while unexpired, so
   * its holder may write, and a second request for the file is refused.
   */
  lemma AcquireOnEmptyTable(id: LeaseId, p: Path, nodeId: string, grantedAt: Timestamp, durationMs: nat, now: Timestamp)
    requires now.physical < grantedAt.physical + durationMs
    ensures var l := NewLease(id, File(p), nodeId, grantedAt, durationMs);
            MostSpecific(TableAdd(EmptyTable, l), p, now, l) &&
            (forall m :: MostSpecific(TableAdd(EmptyTable, l), p, now, m) ==> m.holder == nodeId) &&
            Blocked(TableAdd(EmptyTable, l), File(p), now)
  {
    var l := NewLease(id, File(p), nodeId, grantedAt, durationMs);
    NewLeaseExpiry(id, File(p), nodeId, grantedAt, durationMs, now);
    StoredFileLeaseBlocks(EmptyTable, l, now);
  }

  /** `LeaseManager`. */
  class LeaseManager {
    const hlc: Clock
    const state: LeaseState
    var nodeId: string
    var delegations: map<(string, string), DelegationApproval>

    predicate Valid()
      reads this, state
    {
      state.Valid() && state.nodeId == nodeId
    }

    /** `LeaseManager::new(node_id, hlc)`. */
    constructor (nodeId: string, hlc: Clock)
      ensures Valid() && fresh(state)
      ensures state.State() == EmptyTable && this.nodeId == nodeId && delegations == map[]
      ensures this.hlc == hlc
    {
      this.hlc := hlc;
      state := new LeaseState(nodeId);
      this.nodeId := nodeId;
      delegations := map[];
    }

    /**
     * `acquire_lease(scope, duration)`: take a timestamp; refuse with the id
     * of the conflicting lease when `can_acquire_lease` fails; otherwise
     * install and return a new lease held by this node.
     */
    method AcquireLease(scope: LeaseScope, durationMs: nat, wall: nat, id: LeaseId) returns (r: Result<Lease, LeaseError>)
      requires Valid()
      modifies hlc, state
      ensures Valid()
      ensures hlc.State() == NextNow(old(hlc.State()), wall)
      ensures r.Err? <==> Blocked(old(state.State()), scope, hlc.Last())
      ensures r.Err? ==> r.error.Conflict? && state.State() == old(state.State()) &&
                         r.error.existing in old(state.leases) &&
                         MostSpecific(old(state.State()), scope.path, hlc.Last(), old(state.leases)[r.error.existing])
      ensures r.Ok? ==> r.value == NewLease(id, scope, nodeId, hlc.Last(), durationMs) &&
                        state.State() == TableAdd(old(state.State()), r.value)
      ensures scope.Block? ==> r.Ok?
    {
      var now := hlc.Now(wall);
      var can := state.CanAcquireLease(scope, now);
      if can.Err? {
        return Err(Conflict(can.error.id));
      }
      var lease := NewLease(id, scope, nodeId, now, durationMs);
      state.AddLease(lease);
      r := Ok(lease);
    }

    /** `renew_lease(lease_id, duration)`. */
    method RenewLease(id: LeaseId, durationMs: nat, wall: nat) returns (r: Result<(), LeaseError>)
      requires Valid()
      modifies hlc, state
      ensures Valid()
      ensures hlc.State() == NextNow(old(hlc.State()), wall)
      ensures (r, state.State()) == RenewOutcome(old(state.State()), nodeId, id, hlc.Last(), durationMs)
    {
      var now := hlc.Now(wall);
      var found := state.GetLease(id);
      if found.None? {
        return Err(NotFound(id));
      }
      if found.value.holder != nodeId {
        return Err(Unauthorized);
      }
      if IsExpired(found.value, now) {
        return Err(Expired(id));
      }
      state.RenewStored(id, now, durationMs);
      r := Ok(());
    }

    /** `release_lease(lease_id)`; it does not read the clock. */
    method ReleaseLease(id: LeaseId) returns (r: Result<(), LeaseError>)
      requires Valid()
      modifies state
      ensures Valid()
      ensures (r, state.State()) == ReleaseOutcome(old(state.State()), nodeId, id)
    {
      var found := state.GetLease(id);
      if found.None? {
        return Err(NotFound(id));
      }
      if found.value.holder != nodeId {
        return Err(Unauthorized);
      }
      var _ := state.RemoveLease(id);
      r := Ok(());
    }

    /** `add_delegation`: store an approval until `now.physical + valid_for`, replacing the one for the same key. */
    method AddDelegation(fromCg: string, pathPattern: string, approvedFor: string, validForMs: nat, wall: nat)
      modifies hlc, this
      ensures hlc.State() == NextNow(old(hlc.State()), wall)
      ensures delegations == old(delegations)[(fromCg, pathPattern) :=
                DelegationApproval(pathPattern, approvedFor, Timestamp(hlc.Last().physical + validForMs, 0), [])]
      ensures nodeId == old(nodeId)
    {
      var now := hlc.Now(wall);
      var approval := DelegationApproval(pathPattern, approvedFor, Timestamp(now.physical + validForMs, 0), []);
      delegations := delegations[(fromCg, pathPattern) := approval];
    }

    /** `leases_needing_renewal(within)`. */
    method LeasesNeedingRenewal(withinMs: nat, wall: nat) returns (r: set<Lease>)
      modifies hlc
      ensures hlc.State() == NextNow(old(hlc.State()), wall)
      ensures r == NeedingRenewal(state.State(), nodeId, hlc.Last(), withinMs)
    {
      var now := hlc.Now(wall);
      r := NeedingRenewal(state.State(), nodeId, now, withinMs);
    }

    /** `cleanup`: drop expired leases and approvals no longer valid after `now`. */
    method Cleanup(wall: nat)
      requires Valid()
      modifies hlc, state, this
      ensures Valid()
      ensures hlc.State() == NextNow(old(hlc.State()), wall)
      ensures state.leases == Unexpired(old(state.leases), hlc.Last())
      ensures delegations == LiveDelegations(old(delegations), hlc.Last())
      ensures nodeId == old(nodeId)
    {
      var now := hlc.Now(wall);
      var _ := state.CleanupExpired(now);
      delegations := LiveDelegations(delegations, now);
    }

    /**
     * `can_write(path)`: true only if a most specific candidate is held by this
     * node; true whenever a candidate exists and every most specific one is
     * held by this node. Ties between equally specific leases are broken by
     * the unspecified iteration order.
     */
    method CanWrite(path: Path, wall: nat) returns (b: bool)
      requires Valid()
      modifies hlc
      ensures hlc.State() == NextNow(old(hlc.State()), wall)
      ensures b ==> exists l :: MostSpecific(state.State(), path, hlc.Last(), l) && l.holder == nodeId
      ensures ((exists id :: id in state.leases && Candidate(state.leases[id], path, hlc.Last())) &&
               (forall l :: MostSpecific(state.State(), path, hlc.Last(), l) ==> l.holder == nodeId)) ==> b
    {
      var now := hlc.Now(wall);
      var found := state.FindLeaseForPath(path, now);
      if found.Some? {
        b := found.value.holder == nodeId && !IsExpired(found.value, now);
      } else {
        b := false;
      }
    }
  }
}
