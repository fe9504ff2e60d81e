/**
 * The lease-state CRDT of src/rhc/crdt/lease_state.rs: one last-write-wins
 * register of lease entries per lease scope.
 *
 * The source keys its map by the `Debug` text of the scope; distinct scopes
 * print differently, so the map here is keyed by the scope itself. The lease
 * id that `LeaseId::new()` draws is a parameter of `grant_lease`.
 */
module LeaseCrdt {
  import opened Wrappers
  import opened Hlc
  import opened CrdtBase
  import opened Leases
  import opened LwwRegister

  /** `LeaseEntry`. */
  datatype LeaseEntry = LeaseEntry(
    holder: ActorId,
    leaseId: LeaseId,
    grantedAt: Timestamp,
    expiresAt: Timestamp,
    isActive: bool,
    fenceTs: Option<Timestamp>)

  /** `LeaseInfo`: what a validity check reports. */
  datatype LeaseInfo = LeaseInfo(holder: ActorId, leaseId: LeaseId, expiresAt: Timestamp)

  type Table = map<LeaseScope, Register<LeaseEntry>>

  /** The register of `scope`; an absent scope reads as an empty register. */
  function RegOf(t: Table, scope: LeaseScope): Register<LeaseEntry>
  {
    if scope in t then t[scope] else None
  }

  /** The entry a grant writes: active and unfenced. */
  function NewEntry(holder: ActorId, id: LeaseId, grantedAt: Timestamp, expiresAt: Timestamp): LeaseEntry
  {
    LeaseEntry(holder, id, grantedAt, expiresAt, true, None)
  }

  /** The table after `grant_lease` (lines 37-61): an LWW `set` at `granted_at` under the scope. */
  function Granted(t: Table, scope: LeaseScope, holder: ActorId, id: LeaseId, grantedAt: Timestamp, expiresAt: Timestamp): Table
  {
    t[scope := Assigned(RegOf(t, scope), NewEntry(holder, id, grantedAt, expiresAt), grantedAt)]
  }

  /** The table after `fence_lease` (lines 64-73): the current entry rewritten as fenced and inactive, set at `fence_ts`. */
  function Fenced(t: Table, scope: LeaseScope, fenceTs: Timestamp): Table
  {
    if scope in t && t[scope].Some? then
      var entry := t[scope].value.value;
      t[scope := Assigned(t[scope], entry.(fenceTs := Some(fenceTs), isActive := false), fenceTs)]
    else t
  }

  function InfoOf(e: LeaseEntry): LeaseInfo
  {
    LeaseInfo(e.holder, e.leaseId, e.expiresAt)
  }

  /** `is_lease_valid(scope, check_ts)` (lines 76-102). */
  function ValidAt(t: Table, scope: LeaseScope, checkTs: Timestamp): Option<LeaseInfo>
  {
    match RegOf(t, scope)
    case None => None
    case Some(tv) =>
      var lease := tv.value;
      if lease.fenceTs.Some? && Less(lease.fenceTs.value, checkTs) then None
      else if Less(lease.expiresAt, checkTs) then None
      else Some(InfoOf(lease))
  }

  /** An entry `active_leases(now)` reports (lines 105-123): active and expiring after `now`. */
  predicate ActiveAt(r: Register<LeaseEntry>, now: Timestamp)
  {
    r.Some? && r.value.value.isActive && Less(now, r.value.value.expiresAt)
  }

  /** The table after `merge` (lines 133-141): a per-scope LWW merge over the scopes of both sides. */
  function MergedTable(a: Table, b: Table): Table
  {
    map s | s in a.Keys + b.Keys :: Joined(RegOf(a, s), RegOf(b, s))
  }

  /**
   * A grant writes its entry exactly when the scope holds no entry or one
   * set strictly earlier than `granted_at`; otherwise the scope keeps what
   * it had. Other scopes are untouched.
   */
  lemma GrantEffect(t: Table, scope: LeaseScope, holder: ActorId, id: LeaseId, g: Timestamp, e: Timestamp, other: LeaseScope)
    ensures scope in Granted(t, scope, holder, id, g, e)
    ensures RegOf(t, scope).None? || Less(RegOf(t, scope).value.timestamp, g) ==>
              Granted(t, scope, holder, id, g, e)[scope] == Some(TimestampedValue(NewEntry(holder, id, g, e), g))
    ensures RegOf(t, scope).Some? && !Less(RegOf(t, scope).value.timestamp, g) ==>
              Granted(t, scope, holder, id, g, e)[scope] == RegOf(t, scope)
    ensures other != scope ==>
              (other in Granted(t, scope, holder, id, g, e) <==> other in t) &&
              RegOf(Granted(t, scope, holder, id, g, e), other) == RegOf(t, other)
  {
    AssignOutcome(RegOf(t, scope), NewEntry(holder, id, g, e), g);
  }

  /**
   * Right after a grant that took effect, the lease is valid exactly up to
   * and including its expiry, and the check reports its holder, id and
   * expiry.
   */
  lemma GrantedValidity(t: Table, scope: LeaseScope, holder: ActorId, id: LeaseId, g: Timestamp, e: Timestamp, c: Timestamp)
    requires RegOf(t, scope).None? || Less(RegOf(t, scope).value.timestamp, g)
    ensures ValidAt(Granted(t, scope, holder, id, g, e), scope, c).Some? <==> LessEq(c, e)
    ensures ValidAt(Granted(t, scope, holder, id, g, e), scope, c).Some? ==>
              ValidAt(Granted(t, scope, holder, id, g, e), scope, c).value == LeaseInfo(holder, id, e)
  {
    OrderIsStrictTotal(c, e, c);
  }

  /** A check that succeeds at `c` succeeds at every earlier time: validity ends once, at the fence or the expiry. */
  lemma ValidityIsDownwardClosed(t: Table, scope: LeaseScope, c: Timestamp, c': Timestamp)
    requires ValidAt(t, scope, c).Some? && LessEq(c', c)
    ensures ValidAt(t, scope, c') == ValidAt(t, scope, c)
  {
    var lease := RegOf(t, scope).value.value;
    OrderIsStrictTotal(lease.expiresAt, c', c);
    if lease.fenceTs.Some? {
      OrderIsStrictTotal(lease.fenceTs.value, c', c);
    }
  }

  /**
   * A fence on a scope with no entry changes nothing. On an entry it takes
   * effect exactly when `fence_ts` is later than the entry's timestamp, and
   * then the entry is the same lease, inactive and fenced at `fence_ts`.
   */
  lemma FenceEffect(t: Table, scope: LeaseScope, f: Timestamp)
    ensures RegOf(t, scope).None? ==> Fenced(t, scope, f) == t
    ensures RegOf(t, scope).Some? && Less(RegOf(t, scope).value.timestamp, f) ==>
              var entry := RegOf(t, scope).value.value;
              Fenced(t, scope, f) == t[scope := Some(TimestampedValue(entry.(fenceTs := Some(f), isActive := false), f))]
    ensures RegOf(t, scope).Some? && !Less(RegOf(t, scope).value.timestamp, f) ==> Fenced(t, scope, f) == t
  {
    if scope in t {
      assert t[scope := t[scope]] == t;
    }
  }

  /**
   * After a fence at `f` has taken effect on a lease that had not expired
   * by `f`, checks up to `f` succeed and checks after `f` fail.
   */
  lemma FenceSplitsTime(t: Table, scope: LeaseScope, f: Timestamp, c: Timestamp)
    requires RegOf(t, scope).Some? && Less(RegOf(t, scope).value.timestamp, f)
    requires LessEq(f, RegOf(t, scope).value.value.expiresAt)
    ensures LessEq(c, f) ==> ValidAt(Fenced(t, scope, f), scope, c) == Some(InfoOf(RegOf(t, scope).value.value))
    ensures Less(f, c) ==> ValidAt(Fenced(t, scope, f), scope, c).None?
  {
    var e := RegOf(t, scope).value.value.expiresAt;
    OrderIsStrictTotal(c, f, e);
    OrderIsStrictTotal(f, c, f);
    OrderIsStrictTotal(e, c, f);
  }

  /**
   * After a merge the receiver knows every scope of both replicas, and each
   * scope holds the LWW merge of the two registers.
   */
  lemma MergedEffect(a: Table, b: Table, s: LeaseScope)
    ensures s in MergedTable(a, b) <==> s in a || s in b
    ensures RegOf(MergedTable(a, b), s) == Joined(RegOf(a, s), RegOf(b, s))
  {
  }

  /** Merging is associative, as the register merge is. */
  lemma MergedAssociative(a: Table, b: Table, c: Table)
    ensures MergedTable(MergedTable(a, b), c) == MergedTable(a, MergedTable(b, c))
  {
    var l, r := MergedTable(MergedTable(a, b), c), MergedTable(a, MergedTable(b, c));
    assert l.Keys == r.Keys;
    forall s | s in l ensures l[s] == r[s] {
      JoinAssociative(RegOf(a, s), RegOf(b, s), RegOf(c, s));
    }
  }

  /** Merging a replica into itself changes nothing. */
  lemma MergedIdempotent(a: Table)
    ensures MergedTable(a, a) == a
  {
    forall s | s in a ensures MergedTable(a, a)[s] == a[s] {
      JoinIdempotent(a[s]);
    }
  }

  /** Merging is commutative when no scope holds equal timestamps on the two sides. */
  lemma MergedCommutative(a: Table, b: Table)
    requires forall s :: s in a && s in b && a[s].Some? && b[s].Some? ==> a[s].value.timestamp != b[s].value.timestamp
    ensures MergedTable(a, b) == MergedTable(b, a)
  {
    forall s | s in MergedTable(a, b) ensures MergedTable(a, b)[s] == MergedTable(b, a)[s] {
      JoinCommutativeOnDistinctTimestamps(RegOf(a, s), RegOf(b, s));
    }
  }

  /** `MergedTable` over the tie-broken register merge. */
  function MergedTieBroken(a: Table, b: Table, before: (LeaseEntry, LeaseEntry) -> bool): Table
  {
    map s | s in a.Keys + b.Keys :: JoinedTieBroken(RegOf(a, s), RegOf(b, s), before)
  }

  /** With a deciding tie-break the table merge is commutative, ties included. */
  lemma MergedTieBrokenCommutative(a: Table, b: Table, before: (LeaseEntry, LeaseEntry) -> bool)
    requires Decides(before)
    ensures MergedTieBroken(a, b, before) == MergedTieBroken(b, a, before)
  {
    forall s | s in MergedTieBroken(a, b, before)
      ensures MergedTieBroken(a, b, before)[s] == MergedTieBroken(b, a, before)[s]
    {
      TieBrokenJoinCommutative(RegOf(a, s), RegOf(b, s), before);
    }
  }

  /** The test of lines 154-174: granted over [1000, 2000], valid at 1500 for its holder, invalid at 2500. */
  lemma GrantAndCheckTest(scope: LeaseScope, id: LeaseId)
    ensures var t := Granted(map[], scope, "node1", id, Timestamp(1000, 0), Timestamp(2000, 0));
            && ValidAt(t, scope, Timestamp(1500, 0)) == Some(LeaseInfo("node1", id, Timestamp(2000, 0)))
            && ValidAt(t, scope, Timestamp(2500, 0)).None?
  {
    GrantedValidity(map[], scope, "node1", id, Timestamp(1000, 0), Timestamp(2000, 0), Timestamp(1500, 0));
    GrantedValidity(map[], scope, "node1", id, Timestamp(1000, 0), Timestamp(2000, 0), Timestamp(2500, 0));
  }

  /** The test of lines 176-198: a fence at 1500 keeps the lease valid at 1400 and cuts it off at 1600. */
  lemma FenceTest(scope: LeaseScope, id: LeaseId)
    ensures var t := Fenced(Granted(map[], scope, "node1", id, Timestamp(1000, 0), Timestamp(3000, 0)), scope, Timestamp(1500, 0));
            ValidAt(t, scope, Timestamp(1400, 0)).Some? && ValidAt(t, scope, Timestamp(1600, 0)).None?
  {
    var g := Granted(map[], scope, "node1", id, Timestamp(1000, 0), Timestamp(3000, 0));
    GrantEffect(map[], scope, "node1", id, Timestamp(1000, 0), Timestamp(3000, 0), scope);
    FenceSplitsTime(g, scope, Timestamp(1500, 0), Timestamp(1400, 0));
    FenceSplitsTime(g, scope, Timestamp(1500, 0), Timestamp(1600, 0));
  }

  /** The test of lines 200-225: after merging, the first replica sees both replicas' grants as valid at 1500. */
  lemma MergeTest(s1: LeaseScope, s2: LeaseScope, id1: LeaseId, id2: LeaseId)
    requires s1 != s2
    ensures var t1 := Granted(map[], s1, "node1", id1, Timestamp(1000, 0), Timestamp(2000, 0));
            var t2 := Granted(map[], s2, "node2", id2, Timestamp(1100, 0), Timestamp(2100, 0));
            ValidAt(MergedTable(t1, t2), s1, Timestamp(1500, 0)).Some? &&
            ValidAt(MergedTable(t1, t2), s2, Timestamp(1500, 0)).Some?
  {
    var t1 := Granted(map[], s1, "node1", id1, Timestamp(1000, 0), Timestamp(2000, 0));
    var t2 := Granted(map[], s2, "node2", id2, Timestamp(1100, 0), Timestamp(2100, 0));
    assert RegOf(MergedTable(t1, t2), s1) == t1[s1];
    assert RegOf(MergedTable(t1, t2), s2) == t2[s2];
  }

  /** `LeaseStateCRDT`. */
  class LeaseStateCRDT {
    var leases: Table
    const actor: ActorId

    constructor (actor: ActorId)
      ensures leases == map[] && this.actor == actor
    {
      leases := map[];
      this.actor := actor;
    }

    /** `grant_lease(scope, holder, granted_at, expires_at)`, the new lease id given as `leaseId`. */
    method GrantLease(scope: LeaseScope, holder: ActorId, grantedAt: Timestamp, expiresAt: Timestamp, leaseId: LeaseId) returns (id: LeaseId)
      modifies this
      ensures id == leaseId
      ensures leases == Granted(old(leases), scope, holder, leaseId, grantedAt, expiresAt)
    {
      var entry := NewEntry(holder, leaseId, grantedAt, expiresAt);
      var reg := if scope in leases then leases[scope] else None;
      if reg.None? || Less(reg.value.timestamp, grantedAt) {
        reg := Some(TimestampedValue(entry, grantedAt));
      }
      leases := leases[scope := reg];
      id := leaseId;
    }

    /** `fence_lease(scope, fence_ts)`. */
    method FenceLease(scope: LeaseScope, fenceTs: Timestamp)
      modifies this
      ensures leases == Fenced(old(leases), scope, fenceTs)
    {
      if scope in leases && leases[scope].Some? {
        var current := leases[scope].value;
        var entry := current.value.(fenceTs := Some(fenceTs), isActive := false);
        if Less(current.timestamp, fenceTs) {
          leases := leases[scope := Some(TimestampedValue(entry, fenceTs))];
        }
      }
    }

    /** `is_lease_valid(scope, check_ts)`. */
    function IsLeaseValid(scope: LeaseScope, checkTs: Timestamp): Option<LeaseInfo>
      reads this
    {
      ValidAt(leases, scope, checkTs)
    }

    /**
     * `active_leases(now)`: each scope whose entry is active and expires
     * after `now`, once, with its lease info, in an arbitrary order.
     */
    method ActiveLeases(now: Timestamp) returns (r: seq<(LeaseScope, LeaseInfo)>)
      ensures forall p :: p in r <==> p.0 in leases && ActiveAt(leases[p.0], now) && p.1 == InfoOf(leases[p.0].value.value)
      ensures forall i, j :: 0 <= i < j < |r| ==> r[i].0 != r[j].0
    {
      r := [];
      var pending := leases.Keys;
      while pending != {}
        invariant pending <= leases.Keys
        invariant forall p :: p in r <==>
                    p.0 in leases.Keys - pending && ActiveAt(leases[p.0], now) && p.1 == InfoOf(leases[p.0].value.value)
        invariant forall i, j :: 0 <= i < j < |r| ==> r[i].0 != r[j].0
        decreases pending
      {
        var scope :| scope in pending;
        var reg := leases[scope];
        if reg.Some? && reg.value.value.isActive && Less(now, reg.value.value.expiresAt) {
          r := r + [(scope, InfoOf(reg.value.value))];
        }
        pending := pending - {scope};
      }
    }

    /** `merge(other)`: the register merge for every scope of the other replica. */
    method Merge(other: LeaseStateCRDT)
      modifies this
      ensures leases == MergedTable(old(leases), old(other.leases))
    {
      MergeFrom(other.leases);
    }

    /** `merge` with a copy of another replica's table, as `clone()` takes it. */
    method MergeFrom(theirs: Table)
      modifies this
      ensures leases == MergedTable(old(leases), theirs)
    {
      var table := leases;
      ghost var mine := leases;
      var pending := theirs.Keys;
      while pending != {}
        invariant pending <= theirs.Keys
        invariant table.Keys == mine.Keys + (theirs.Keys - pending)
        invariant forall s :: s in table ==>
                    table[s] == if s in theirs.Keys - pending then Joined(RegOf(mine, s), theirs[s]) else mine[s]
        decreases pending
      {
        var s :| s in pending;
        var reg := if s in table then table[s] else None;
        table := table[s := Joined(reg, theirs[s])];
        pending := pending - {s};
      }
      forall s | s in table ensures table[s] == MergedTable(mine, theirs)[s] {
        if s !in theirs {
          JoinOutcome(mine[s], None);
        }
      }
      assert table.Keys == MergedTable(mine, theirs).Keys;
      leases := table;
    }
  }
}
