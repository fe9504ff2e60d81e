/**
 * The domain-keyed leases of rhc/src/lease.rs.
 *
 * Every reading of the clock there builds a fresh `HybridClock` and calls
 * `now()` on it, so the timestamp is the wall-clock reading with logical 0;
 * each such reading is a parameter (`utcCheck`, `utcStart`, `utcNow`, in
 * milliseconds). Fresh lease ids (`Uuid::new_v4()`) are the parameter `newId`.
 * Durations are signed milliseconds, as `chrono::Duration` is.
 */
module RhcLease {
  import opened Wrappers
  import opened RhcBase
  import opened RhcCrypto
  import opened HybridTime

  /** `Domain`. */
  datatype Domain = Domain(id: Uuid, name: string, parent: Option<Uuid>, level: U8)

  /** `b` names `a` as its parent. */
  predicate ParentLink(a: Domain, b: Domain)
  {
    b.parent == Some(a.id)
  }

  /**
   * `is_ancestor_of(other)`: the loop follows `other.parent` one step and
   * then stops, since the parent domain is never looked up.
   */
  method IsAncestorOf(ancestor: Domain, other: Domain) returns (r: bool)
    ensures r <==> ParentLink(ancestor, other)
  {
    var current := other.parent;
    while current.Some?
      invariant current == other.parent || (current.None? && other.parent != Some(ancestor.id))
      decreases if current.Some? then 1 else 0
    {
      if current.value == ancestor.id {
        return true;
      }
      current := None;
    }
    return false;
  }

  /**
   * One level only: a grandparent is not recognised as an ancestor, unless it
   * happens to share its id with the parent.
   */
  lemma GrandparentNotAncestor(g: Domain, p: Domain, c: Domain)
    requires ParentLink(g, p) && ParentLink(p, c) && g.id != p.id
    ensures !ParentLink(g, c)
  {
  }

  /** `Lease`; `duration` is in milliseconds. */
  datatype Lease = Lease(
    id: Uuid,
    domain: Domain,
    holder: NodeId,
    startTime: HybridTimestamp,
    duration: int,
    parentLease: Option<LeaseProof>,
    signature: Signature)

  /** `LeaseProof`. */
  datatype LeaseProof = LeaseProof(lease: Lease, chain: seq<Signature>)

  /** `is_valid(now)`: the physical part of now is before start plus duration. */
  predicate IsValid(l: Lease, now: HybridTimestamp)
  {
    now.physical < l.startTime.physical + l.duration
  }

  /** `expires_at()`. */
  function ExpiresAt(l: Lease): HybridTimestamp
  {
    HybridTimestamp(l.startTime.physical + l.duration, l.startTime.logical)
  }

  /** `time_remaining(now)`: never negative, zero exactly once the lease is no longer valid. */
  function TimeRemaining(l: Lease, now: HybridTimestamp): (r: int)
    ensures r >= 0
    ensures r == 0 <==> !IsValid(l, now)
    ensures IsValid(l, now) ==> now.physical + r == ExpiresAt(l).physical
  {
    var expiry := ExpiresAt(l);
    if now.physical < expiry.physical then expiry.physical - now.physical else 0
  }

  /**
   * A lease is valid exactly before the physical part of its expiry, which
   * keeps the start's logical part; validity at a time implies validity at
   * every physically earlier time.
   */
  lemma ValidUntilExpiry(l: Lease, now: HybridTimestamp, earlier: HybridTimestamp)
    ensures IsValid(l, now) <==> now.physical < ExpiresAt(l).physical
    ensures ExpiresAt(l).logical == l.startTime.logical
    ensures IsValid(l, now) && earlier.physical <= now.physical ==> IsValid(l, earlier)
    ensures now.physical >= ExpiresAt(l).physical ==> TimeRemaining(l, now) == 0
  {
  }

  /** The timestamp of a freshly built clock read at `utc`. */
  function FreshNow(utc: int): (t: HybridTimestamp)
    ensures t == NowStamp(Cells(0, 0), utc)
  {
    HybridTimestamp(utc, 0)
  }

  /** `verify_lease(proof)` at time `now` (`LeaseProof::verify` always succeeds). */
  function VerifyOutcome(proof: LeaseProof, now: HybridTimestamp): Result<(), Error>
    decreases proof
  {
    if !IsValid(proof.lease, now) then Err(LeaseExpired(proof.lease.domain.name))
    else match proof.lease.parentLease
      case None => Ok(())
      case Some(parent) =>
        var pr := VerifyOutcome(parent, now);
        if pr.Err? then pr
        else if !ParentLink(parent.lease.domain, proof.lease.domain) then Err(InvalidLeaseProof)
        else Ok(())
  }

  /** The leases of a proof, from the proof's own lease up through its parents. */
  function ProofChain(proof: LeaseProof): (c: seq<Lease>)
    ensures |c| >= 1 && c[0] == proof.lease
    decreases proof
  {
    match proof.lease.parentLease
    case None => [proof.lease]
    case Some(parent) => [proof.lease] + ProofChain(parent)
  }

  /** Every lease of the chain is valid and each is led by a lease on its direct parent domain. */
  predicate SoundChain(c: seq<Lease>, now: HybridTimestamp)
  {
    (forall i :: 0 <= i < |c| ==> IsValid(c[i], now)) &&
    (forall i :: 0 <= i < |c| - 1 ==> ParentLink(c[i + 1].domain, c[i].domain))
  }

  /** A chain led by `l` is sound exactly when `l` is valid, led by a lease on its parent domain, and the rest is sound. */
  lemma SoundChainCons(l: Lease, pc: seq<Lease>, now: HybridTimestamp)
    requires |pc| >= 1
    ensures SoundChain([l] + pc, now) <==> IsValid(l, now) && ParentLink(pc[0].domain, l.domain) && SoundChain(pc, now)
  {
    var c := [l] + pc;
    assert forall i :: 0 <= i < |pc| ==> c[i + 1] == pc[i];
    if IsValid(l, now) && ParentLink(pc[0].domain, l.domain) && SoundChain(pc, now) {
      forall i | 0 <= i < |c| ensures IsValid(c[i], now) {
        if i > 0 {
          assert c[i] == pc[i - 1];
        }
      }
      forall i | 0 <= i < |c| - 1 ensures ParentLink(c[i + 1].domain, c[i].domain) {
        if i > 0 {
          assert c[i] == pc[i - 1] && c[i + 1] == pc[i];
        }
      }
    }
    if SoundChain(c, now) {
      assert IsValid(c[0], now) && ParentLink(c[1].domain, c[0].domain);
      forall i | 0 <= i < |pc| ensures IsValid(pc[i], now) {
        assert IsValid(c[i + 1], now);
      }
      forall i | 0 <= i < |pc| - 1 ensures ParentLink(pc[i + 1].domain, pc[i].domain) {
        assert ParentLink(c[i + 2].domain, c[i + 1].domain);
      }
    }
  }

  /**
   * `verify_lease` accepts a proof exactly when its whole parent chain is
   * sound; a refusal is `LeaseExpired` for a lease of the chain that is no
   * longer valid—the proof's own lease first—or `InvalidLeaseProof`.
   */
  lemma {:induction false} VerifyIffSoundChain(proof: LeaseProof, now: HybridTimestamp)
    ensures VerifyOutcome(proof, now).Ok? <==> SoundChain(ProofChain(proof), now)
    ensures !IsValid(proof.lease, now) ==> VerifyOutcome(proof, now) == Err(LeaseExpired(proof.lease.domain.name))
    ensures VerifyOutcome(proof, now).Err? ==>
              VerifyOutcome(proof, now) == Err(InvalidLeaseProof) ||
              exists i :: 0 <= i < |ProofChain(proof)| && !IsValid(ProofChain(proof)[i], now) &&
                          VerifyOutcome(proof, now) == Err(LeaseExpired(ProofChain(proof)[i].domain.name))
    decreases proof
  {
    var c := ProofChain(proof);
    match proof.lease.parentLease
    case None =>
      assert c == [proof.lease];
      if !IsValid(proof.lease, now) {
        assert !IsValid(c[0], now);
      }
    case Some(parent) =>
      VerifyIffSoundChain(parent, now);
      var pc := ProofChain(parent);
      assert c == [proof.lease] + pc;
      SoundChainCons(proof.lease, pc, now);
      if !IsValid(proof.lease, now) {
        assert !IsValid(c[0], now);
      } else if VerifyOutcome(parent, now).Err? && VerifyOutcome(parent, now) != Err(InvalidLeaseProof) {
        var i :| 0 <= i < |pc| && !IsValid(pc[i], now) && VerifyOutcome(parent, now) == Err(LeaseExpired(pc[i].domain.name));
        assert c[i + 1] == pc[i];
      }
  }

  /** The two maps of a `LeaseManager`: all leases by id, and the active lease of each domain. */
  datatype Tables = Tables(leases: map<Uuid, Lease>, active: map<Uuid, Lease>)

  /** Each active lease sits under its own domain's id and is the stored lease of its id. */
  predicate Consistent(t: Tables)
  {
    forall d :: d in t.active ==>
      t.active[d].domain.id == d && t.active[d].id in t.leases && t.leases[t.active[d].id] == t.active[d]
  }

  /** `get_active_lease(domain_id)`. */
  function ActiveFor(t: Tables, domainId: Uuid): Option<Lease>
  {
    if domainId in t.active then Some(t.active[domainId]) else None
  }

  /**
   * `request_lease(domain, duration, parent_proof)`: the conflict check reads
   * the clock at `checkNow`, and the new lease starts at `startNow`.
   */
  function RequestOutcome(t: Tables, nodeId: NodeId, domain: Domain, duration: int, parentProof: Option<LeaseProof>,
                          newId: Uuid, checkNow: HybridTimestamp, startNow: HybridTimestamp): (Result<LeaseProof, Error>, Tables)
  {
    if domain.id in t.active && IsValid(t.active[domain.id], checkNow) then
      (Err(LeaseConflict(domain.name, t.active[domain.id].holder)), t)
    else
      var l := Lease(newId, domain, nodeId, startNow, duration, parentProof, DefaultSignature());
      (Ok(LeaseProof(l, [])), Tables(t.leases[newId := l], t.active[domain.id := l]))
  }

  /**
   * A request conflicts, naming the holder and changing nothing, exactly while
   * the domain's active lease is valid; otherwise the new lease—held by this
   * node, starting now, carrying the parent proof—is stored under its id and
   * as the domain's active lease, the proof has an empty chain, and
   * `get_active_lease` returns it. Other domains keep their active lease.
   */
  lemma RequestEffect(t: Tables, nodeId: NodeId, domain: Domain, duration: int, parentProof: Option<LeaseProof>,
                      newId: Uuid, checkNow: HybridTimestamp, startNow: HybridTimestamp, other: Uuid)
    ensures var (r, t') := RequestOutcome(t, nodeId, domain, duration, parentProof, newId, checkNow, startNow);
            (r.Err? <==> ActiveFor(t, domain.id).Some? && IsValid(ActiveFor(t, domain.id).value, checkNow)) &&
            (r.Err? ==> r.error == LeaseConflict(domain.name, ActiveFor(t, domain.id).value.holder) && t' == t)
    ensures var (r, t') := RequestOutcome(t, nodeId, domain, duration, parentProof, newId, checkNow, startNow);
            r.Ok? ==>
              r.value.chain == [] && r.value.lease.id == newId && r.value.lease.domain == domain &&
              r.value.lease.holder == nodeId && r.value.lease.startTime == startNow &&
              r.value.lease.duration == duration && r.value.lease.parentLease == parentProof &&
              ActiveFor(t', domain.id) == Some(r.value.lease) &&
              newId in t'.leases && t'.leases[newId] == r.value.lease &&
              (other != domain.id ==> ActiveFor(t', other) == ActiveFor(t, other))
    ensures newId !in t.leases && Consistent(t) ==>
              Consistent(RequestOutcome(t, nodeId, domain, duration, parentProof, newId, checkNow, startNow).1)
  {
  }

  /**
   * The conflict test of rhc/tests/formal_verification.rs: a second request
   * for the same domain, made before the first lease runs out, conflicts and
   * leaves the first lease active.
   */
  lemma SecondRequestConflicts(t: Tables, nodeId: NodeId, domain: Domain, duration: int, id1: Uuid, id2: Uuid, utc1: int, utc2: int, utc3: int)
    requires utc2 < utc1 + duration
    ensures var (r1, t1) := RequestOutcome(t, nodeId, domain, duration, None, id1, FreshNow(utc1), FreshNow(utc1));
            r1.Ok? ==>
              var (r2, t2) := RequestOutcome(t1, nodeId, domain, duration, None, id2, FreshNow(utc2), FreshNow(utc3));
              r2 == Err(LeaseConflict(domain.name, nodeId)) && ActiveFor(t2, domain.id) == Some(r1.value.lease)
  {
  }

  /**
   * `renew_lease(lease_id, duration)` at `now`: an unknown id and an expired
   * lease are refused; otherwise a new lease with id `newId`, starting now
   * with the new duration and keeping domain, holder and parent, is stored
   * and becomes the domain's active lease. The old lease stays stored.
   */
  function RenewOutcome(t: Tables, leaseId: Uuid, duration: int, newId: Uuid, now: HybridTimestamp): (Result<LeaseProof, Error>, Tables)
  {
    if leaseId !in t.leases then (Err(Other("Lease not found")), t)
    else
      var l := t.leases[leaseId];
      if !IsValid(l, now) then (Err(LeaseExpired(l.domain.name)), t)
      else
        var renewed := Lease(newId, l.domain, l.holder, now, duration, l.parentLease, DefaultSignature());
        (Ok(LeaseProof(renewed, [])), Tables(t.leases[newId := renewed], t.active[l.domain.id := renewed]))
  }

  /**
   * Renewal refuses an unknown id with `Other` and an invalid lease with
   * `LeaseExpired`, changing nothing; otherwise the renewed lease keeps domain,
   * holder and parent, starts now, and is the domain's active lease, while the
   * old lease remains stored under its id.
   */
  lemma RenewEffect(t: Tables, leaseId: Uuid, duration: int, newId: Uuid, now: HybridTimestamp)
    ensures var (r, t') := RenewOutcome(t, leaseId, duration, newId, now);
            (leaseId !in t.leases ==> r == Err(Other("Lease not found")) && t' == t) &&
            (leaseId in t.leases && !IsValid(t.leases[leaseId], now) ==>
               r == Err(LeaseExpired(t.leases[leaseId].domain.name)) && t' == t)
    ensures var (r, t') := RenewOutcome(t, leaseId, duration, newId, now);
            r.Ok? ==>
              leaseId in t.leases && IsValid(t.leases[leaseId], now) &&
              var old_ := t.leases[leaseId];
              r.value.chain == [] && r.value.lease.id == newId && r.value.lease.startTime == now &&
              r.value.lease.duration == duration && r.value.lease.domain == old_.domain &&
              r.value.lease.holder == old_.holder && r.value.lease.parentLease == old_.parentLease &&
              ActiveFor(t', old_.domain.id) == Some(r.value.lease) &&
              (leaseId != newId ==> leaseId in t'.leases && t'.leases[leaseId] == old_)
    ensures newId !in t.leases && Consistent(t) ==> Consistent(RenewOutcome(t, leaseId, duration, newId, now).1)
  {
  }

  /** `revoke_lease(lease_id)`: drop the lease, and the active entry of its domain. */
  function Revoked(t: Tables, leaseId: Uuid): Tables
  {
    if leaseId in t.leases then Tables(t.leases - {leaseId}, t.active - {t.leases[leaseId].domain.id})
    else t
  }

  /**
   * Revocation removes the lease and its domain's active entry—even when that
   * entry is a later renewal—touches nothing else, changes nothing for an
   * unknown id, and keeps the tables consistent.
   */
  lemma RevokeEffect(t: Tables, leaseId: Uuid, d: Uuid)
    ensures leaseId !in t.leases ==> Revoked(t, leaseId) == t
    ensures leaseId in t.leases ==>
              leaseId !in Revoked(t, leaseId).leases && ActiveFor(Revoked(t, leaseId), t.leases[leaseId].domain.id).None? &&
              (d != t.leases[leaseId].domain.id ==> ActiveFor(Revoked(t, leaseId), d) == ActiveFor(t, d))
    ensures Consistent(t) ==> Consistent(Revoked(t, leaseId))
  {
  }

  /** `LeaseManager`. */
  class LeaseManager {
    const nodeId: NodeId
    var leases: map<Uuid, Lease>
    var activeLeases: map<Uuid, Lease>

    function State(): Tables
      reads this
    {
      Tables(leases, activeLeases)
    }

    constructor (nodeId: NodeId)
      ensures this.nodeId == nodeId && State() == Tables(map[], map[])
    {
      this.nodeId := nodeId;
      leases := map[];
      activeLeases := map[];
    }

    /** `request_lease`. */
    method RequestLease(domain: Domain, duration: int, parentProof: Option<LeaseProof>, newId: Uuid, utcCheck: int, utcStart: int)
      returns (r: Result<LeaseProof, Error>)
      modifies this
      ensures (r, State()) == RequestOutcome(old(State()), nodeId, domain, duration, parentProof, newId, FreshNow(utcCheck), FreshNow(utcStart))
    {
      if domain.id in activeLeases {
        var existing := activeLeases[domain.id];
        var now := HybridTimestamp(utcCheck, 0);
        if IsValid(existing, now) {
          return Err(LeaseConflict(domain.name, existing.holder));
        }
      }
      var lease := Lease(newId, domain, nodeId, HybridTimestamp(utcStart, 0), duration, parentProof, DefaultSignature());
      leases := leases[lease.id := lease];
      activeLeases := activeLeases[domain.id := lease];
      r := Ok(LeaseProof(lease, []));
    }

    /** `verify_lease`: every level of the recursion reads the clock at `utcNow`. */
    method VerifyLease(proof: LeaseProof, utcNow: int) returns (r: Result<(), Error>)
      ensures r == VerifyOutcome(proof, FreshNow(utcNow))
      decreases proof
    {
      var now := HybridTimestamp(utcNow, 0);
      if !IsValid(proof.lease, now) {
        return Err(LeaseExpired(proof.lease.domain.name));
      }
      if proof.lease.parentLease.Some? {
        var parentProof := proof.lease.parentLease.value;
        var pr := VerifyLease(parentProof, utcNow);
        if pr.Err? {
          return pr;
        }
        var isAncestor := IsAncestorOf(parentProof.lease.domain, proof.lease.domain);
        if !isAncestor {
          return Err(InvalidLeaseProof);
        }
      }
      r := Ok(());
    }

    /** `renew_lease`. */
    method RenewLease(leaseId: Uuid, duration: int, newId: Uuid, utcNow: int) returns (r: Result<LeaseProof, Error>)
      modifies this
      ensures (r, State()) == RenewOutcome(old(State()), leaseId, duration, newId, FreshNow(utcNow))
    {
      if leaseId !in leases {
        return Err(Other("Lease not found"));
      }
      var lease := leases[leaseId];
      var now := HybridTimestamp(utcNow, 0);
      if !IsValid(lease, now) {
        return Err(LeaseExpired(lease.domain.name));
      }
      var renewed := Lease(newId, lease.domain, lease.holder, now, duration, lease.parentLease, DefaultSignature());
      leases := leases[renewed.id := renewed];
      activeLeases := activeLeases[lease.domain.id := renewed];
      r := Ok(LeaseProof(renewed, []));
    }

    /** `revoke_lease`: always `Ok`. */
    method RevokeLease(leaseId: Uuid) returns (r: Result<(), Error>)
      modifies this
      ensures r == Ok(()) && State() == Revoked(old(State()), leaseId)
    {
      if leaseId in leases {
        var lease := leases[leaseId];
        leases := leases - {leaseId};
        activeLeases := activeLeases - {lease.domain.id};
      }
      r := Ok(());
    }

    /** `get_active_lease(domain_id)`. */
    function GetActiveLease(domainId: Uuid): (r: Option<Lease>)
      reads this
      ensures r == ActiveFor(State(), domainId)
    {
      if domainId in activeLeases then Some(activeLeases[domainId]) else None
    }
  }
}
