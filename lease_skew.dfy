/**
 * The clock-skew demonstration of examples/lease_migration_with_clock_skew.rs:
 * a consensus group keeps one lease per path and judges every request by
 * its own hybrid logical clock, so nodes whose wall clocks are off by
 * seconds still see one holder at a time.
 *
 * Each clock's wall-clock reading is a parameter: `wall` for the group's
 * clock, and for a node the true time `realMs`, which the node's clock
 * sees shifted by its skew. The identifier `LeaseId::new()` generates is
 * the parameter `id`. A request's two reads of the group's clock see one
 * wall reading.
 */
module LeaseSkew {
  import opened Wrappers
  import opened Hlc
  import opened Leases

  /** `ActiveLease`: who holds a path, from when and until when. */
  datatype ActiveLease = ActiveLease(holder: string, grantedAt: Timestamp, expiresAt: Timestamp, id: LeaseId)

  /** The refusal `process_lease_request` formats into its message: the current holder and its expiry. */
  datatype Refusal = HeldUntil(holder: string, expiresAt: Timestamp)

  /** The group's `lease_table`: at most one lease per path. */
  type LeaseBook = map<string, ActiveLease>

  /** The expiry of a lease granted at `grantedAt` for `durationMs`. */
  function ExpiryOf(grantedAt: Timestamp, durationMs: nat): (r: Timestamp)
    ensures Less(grantedAt, r) <==> durationMs > 0
  {
    Timestamp(grantedAt.physical + durationMs, 0)
  }

  /** A path's lease is still running at `ts` when it expires after it. */
  predicate Running(book: LeaseBook, path: string, ts: Timestamp)
  {
    path in book && Less(ts, book[path].expiresAt)
  }

  /**
   * The decision of `process_lease_request` at consensus time
   * `consensusTs`: refuse while the path's lease runs, otherwise install a
   * new lease for the requester, replacing whatever the path held.
   */
  function Decide(book: LeaseBook, path: string, requester: string, consensusTs: Timestamp, durationMs: nat, id: LeaseId)
    : (r: (Result<LeaseId, Refusal>, LeaseBook))
    ensures Running(book, path, consensusTs) <==> r.0.Err?
    ensures r.0.Err? ==> r.0.error == HeldUntil(book[path].holder, book[path].expiresAt) && r.1 == book
    ensures r.0.Ok? ==> r.0.value == id && r.1.Keys == book.Keys + {path}
    ensures r.0.Ok? ==> r.1[path] == ActiveLease(requester, consensusTs, ExpiryOf(consensusTs, durationMs), id)
    ensures forall p :: p in book && p != path ==> p in r.1 && r.1[p] == book[p]
  {
    if Running(book, path, consensusTs) then
      (Err(HeldUntil(book[path].holder, book[path].expiresAt)), book)
    else
      (Ok(id), book[path := ActiveLease(requester, consensusTs, ExpiryOf(consensusTs, durationMs), id)])
  }

  /**
   * Mutual exclusion: once a path is granted to one requester, every
   * request judged before the lease expires is refused naming that holder,
   * and the table is left as it was.
   */
  lemma GrantExcludesUntilExpiry(book: LeaseBook, path: string, holder: string, grantTs: Timestamp, durationMs: nat, id: LeaseId,
                                 other: string, laterTs: Timestamp, otherDuration: nat, otherId: LeaseId)
    requires Decide(book, path, holder, grantTs, durationMs, id).0.Ok?
    requires Less(laterTs, ExpiryOf(grantTs, durationMs))
    ensures var granted := Decide(book, path, holder, grantTs, durationMs, id).1;
            Decide(granted, path, other, laterTs, otherDuration, otherId) ==
              (Err(HeldUntil(holder, ExpiryOf(grantTs, durationMs))), granted)
  {
  }

  /** Once the lease has expired by the consensus clock, the next request is granted. */
  lemma ExpiredLeaseIsReplaced(book: LeaseBook, path: string, holder: string, grantTs: Timestamp, durationMs: nat, id: LeaseId,
                               other: string, laterTs: Timestamp, otherDuration: nat, otherId: LeaseId)
    requires Decide(book, path, holder, grantTs, durationMs, id).0.Ok?
    requires !Less(laterTs, ExpiryOf(grantTs, durationMs))
    ensures var granted := Decide(book, path, holder, grantTs, durationMs, id).1;
            Decide(granted, path, other, laterTs, otherDuration, otherId).0 == Ok(otherId) &&
            Decide(granted, path, other, laterTs, otherDuration, otherId).1[path].holder == other
  {
  }

  /** `ConsensusGroup`: the lease table it orders and its clock. */
  class ConsensusGroup {
    const name: string
    const hlc: Clock
    var leaseTable: LeaseBook

    /** `ConsensusGroup::new`: no leases, a clock at zero. */
    constructor (name: string)
      ensures this.name == name && leaseTable == map[] && fresh(hlc) && hlc.State() == ClockState(0, 0)
    {
      this.name := name;
      leaseTable := map[];
      hlc := new Clock();
    }

    /** The consensus time of a request stamped `requestTs`: the clock takes in the stamp, then ticks. */
    ghost function ConsensusTime(requestTs: Timestamp, wall: nat): ClockState
      reads hlc
    {
      NextNow(StateAfterUpdate(hlc.State(), requestTs, wall), wall)
    }

    /**
     * `process_lease_request`: the clock takes in the request's stamp and
     * ticks, and the decision is taken at the resulting consensus time. The
     * group's physical time never moves back.
     */
    method ProcessLeaseRequest(path: string, requester: string, requestTs: Timestamp, durationMs: nat, wall: nat, id: LeaseId)
      returns (r: Result<LeaseId, Refusal>)
      modifies this, hlc
      ensures hlc.State() == old(ConsensusTime(requestTs, wall))
      ensures hlc.State().physical >= old(hlc.State().physical)
      ensures (r, leaseTable) == Decide(old(leaseTable), path, requester, hlc.Last(), durationMs, id)
    {
      var ignored := hlc.Update(requestTs, wall);
      var consensusTs := hlc.Now(wall);
      if path in leaseTable && Less(consensusTs, leaseTable[path].expiresAt) {
        var existing := leaseTable[path];
        return Err(HeldUntil(existing.holder, existing.expiresAt));
      }
      var expiresAt := Timestamp(consensusTs.physical + durationMs, 0);
      leaseTable := leaseTable[path := ActiveLease(requester, consensusTs, expiresAt, id)];
      r := Ok(id);
    }

    /** `check_lease`: the clock takes in the stamp; the lease of the path, if any, is returned unchanged. */
    method CheckLease(path: string, checkTs: Timestamp, wall: nat) returns (r: Option<ActiveLease>)
      modifies hlc
      ensures hlc.State() == StateAfterUpdate(old(hlc.State()), checkTs, wall)
      ensures r.Some? <==> path in leaseTable
      ensures r.Some? ==> r.value == leaseTable[path]
    {
      var ignored := hlc.Update(checkTs, wall);
      r := if path in leaseTable then Some(leaseTable[path]) else None;
    }
  }

  /**
   * The wall clock a node with skew `skewMs` sees at true time `realMs`.
   * A negative skew is subtracted as an unsigned 64-bit value, which the
   * source only does when it does not go below zero.
   */
  function SkewedReading(realMs: nat, skewMs: int): (r: nat)
    requires skewMs >= 0 || realMs >= -skewMs
    ensures r == realMs + skewMs
  {
    if skewMs >= 0 then realMs + skewMs else realMs - (-skewMs)
  }

  /** `SkewedNode` with its `NodeStats`. */
  class SkewedNode {
    const name: string
    const clockSkewMs: int
    const hlc: Clock
    const consensusGroup: ConsensusGroup
    var writesAttempted: nat
    var writesSucceeded: nat
    var leaseAcquisitions: nat
    var clockCorrections: nat

    /** No more writes succeed than were attempted, and node and group keep separate clocks. */
    ghost predicate Valid()
      reads this
    {
      writesSucceeded <= writesAttempted && hlc != consensusGroup.hlc
    }

    /** `SkewedNode::new`: a fresh clock driven by the skewed wall clock, zeroed statistics. */
    constructor (name: string, clockSkewMs: int, consensusGroup: ConsensusGroup)
      ensures Valid() && fresh(hlc) && hlc.State() == ClockState(0, 0)
      ensures this.name == name && this.clockSkewMs == clockSkewMs && this.consensusGroup == consensusGroup
      ensures writesAttempted == 0 && writesSucceeded == 0 && leaseAcquisitions == 0 && clockCorrections == 0
    {
      this.name := name;
      this.clockSkewMs := clockSkewMs;
      hlc := new Clock();
      this.consensusGroup := consensusGroup;
      writesAttempted, writesSucceeded, leaseAcquisitions, clockCorrections := 0, 0, 0, 0;
    }

    /** The time this node's clock stamps a step with at true time `realMs`. */
    ghost function StampAt(realMs: nat): Timestamp
      requires clockSkewMs >= 0 || realMs >= -clockSkewMs
      reads this, hlc
    {
      Stamp(NextNow(hlc.State(), SkewedReading(realMs, clockSkewMs)))
    }

    /**
     * `try_write`: the attempt is counted; the node stamps the check with
     * its own clock, and the write succeeds, and is counted as a success,
     * exactly when the group holds a lease for the path that runs past
     * that stamp and names this node.
     */
    method TryWrite(path: string, realMs: nat, cgWall: nat) returns (r: Result<(), string>)
      requires Valid()
      requires clockSkewMs >= 0 || realMs >= -clockSkewMs
      modifies this, hlc, consensusGroup.hlc
      ensures Valid()
      ensures writesAttempted == old(writesAttempted) + 1
      ensures writesSucceeded == old(writesSucceeded) + (if r.Ok? then 1 else 0)
      ensures leaseAcquisitions == old(leaseAcquisitions)
      ensures var now := old(StampAt(realMs));
              var table := consensusGroup.leaseTable;
              (r.Ok? <==> Running(table, path, now) && table[path].holder == name) &&
              (path !in table ==> r == Err("No active lease")) &&
              (Running(table, path, now) && table[path].holder != name ==> r == Err("Lease held by " + table[path].holder)) &&
              (path in table && !Running(table, path, now) ==> r == Err("Lease expired"))
      ensures consensusGroup.leaseTable == old(consensusGroup.leaseTable)
    {
      writesAttempted := writesAttempted + 1;
      var now := hlc.Now(SkewedReading(realMs, clockSkewMs));
      var lease := consensusGroup.CheckLease(path, now, cgWall);
      if lease.Some? {
        if Less(now, lease.value.expiresAt) && lease.value.holder == name {
          writesSucceeded := writesSucceeded + 1;
          r := Ok(());
        } else if Less(now, lease.value.expiresAt) {
          r := Err("Lease held by " + lease.value.holder);
        } else {
          r := Err("Lease expired");
        }
      } else {
        r := Err("No active lease");
      }
    }

    /**
     * `acquire_lease`: the node stamps the request with its own clock and
     * the group decides it; only a granted request is counted.
     */
    method AcquireLease(path: string, durationMs: nat, realMs: nat, cgWall: nat, id: LeaseId) returns (r: Result<(), Refusal>)
      requires Valid()
      requires clockSkewMs >= 0 || realMs >= -clockSkewMs
      modifies this, hlc, consensusGroup, consensusGroup.hlc
      ensures Valid()
      ensures leaseAcquisitions == old(leaseAcquisitions) + (if r.Ok? then 1 else 0)
      ensures writesAttempted == old(writesAttempted) && writesSucceeded == old(writesSucceeded)
      ensures var decision := Decide(old(consensusGroup.leaseTable), path, name, consensusGroup.hlc.Last(), durationMs, id);
              (r.Ok? <==> decision.0.Ok?) && (r.Err? ==> r.error == decision.0.error) &&
              consensusGroup.leaseTable == decision.1
      ensures consensusGroup.hlc.State() == old(consensusGroup.ConsensusTime(StampAt(realMs), cgWall))
    {
      var requestTs := hlc.Now(SkewedReading(realMs, clockSkewMs));
      var granted := consensusGroup.ProcessLeaseRequest(path, name, requestTs, durationMs, cgWall, id);
      if granted.Ok? {
        leaseAcquisitions := leaseAcquisitions + 1;
        r := Ok(());
      } else {
        r := Err(granted.error);
      }
    }
  }
}
