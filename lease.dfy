/**
 * Lease scopes and leases of src/rhc/leases/lease.rs.
 *
 * A lease id (`LeaseId::new()` reads the system clock) is a parameter, and a
 * `Duration` is its whole number of milliseconds (`as_millis() as u64`).
 */
module Leases {
  import opened Wrappers
  import opened Hlc
  import opened Paths

  /** `DEFAULT_LEASE_DURATION`: 30 s. */
  const DEFAULT_LEASE_DURATION_MS: nat := 30_000

  type LeaseId = nat

  /** What a lease covers: a file, a directory (recursively or not) or a named block. */
  datatype LeaseScope =
    | File(path: Path)
    | Directory(path: Path, recursive: bool)
    | Block(block: string)

  /** `covers(path)` (lines 44-56). */
  predicate Covers(scope: LeaseScope, path: Path)
  {
    match scope
    case File(p) => p == path
    case Directory(dir, recursive) =>
      if recursive then StartsWith(path, dir) else Parent(path) == Some(dir)
    case Block(_) => false
  }

  /**
   * What each kind of scope covers: a file exactly its own path, a recursive
   * directory every path below or at it, a non-recursive directory exactly its
   * direct children, a block nothing.
   */
  lemma CoversCases(scope: LeaseScope, path: Path)
    ensures scope.File? ==> (Covers(scope, path) <==> path == scope.path)
    ensures scope.Directory? && scope.recursive ==>
              (Covers(scope, path) <==> |scope.path| <= |path| && path[..|scope.path|] == scope.path)
    ensures scope.Directory? && !scope.recursive ==>
              (Covers(scope, path) <==>
                 path != [RootDir] && |path| == |scope.path| + 1 && path[..|scope.path|] == scope.path)
    ensures scope.Block? ==> !Covers(scope, path)
  {
    if scope.Directory? && !scope.recursive {
      if Covers(scope, path) {
        assert path[..|path| - 1] == scope.path;
      }
    }
  }

  /** What a non-recursive directory covers, its recursive form also covers. */
  lemma NonRecursiveWithinRecursive(dir: Path, path: Path)
    requires Covers(Directory(dir, false), path)
    ensures Covers(Directory(dir, true), path)
    ensures ComponentCount(path) == ComponentCount(dir) + 1
  {
    CoversCases(Directory(dir, false), path);
  }

  /** `path()` (lines 78-84). */
  function ScopePath(scope: LeaseScope): (r: Option<Path>)
    ensures r.None? <==> scope.Block?
    ensures r.Some? ==> r.value == scope.path
  {
    match scope
    case File(p) => Some(p)
    case Directory(p, _) => Some(p)
    case Block(_) => None
  }

  /** `is_more_specific_than` (lines 60-75): more path components is more specific. */
  predicate IsMoreSpecificThan(a: LeaseScope, b: LeaseScope)
  {
    if a.Block? then false
    else if b.Block? then true
    else ComponentCount(a.path) > ComponentCount(b.path)
  }

  /**
   * A block is never more specific, every path scope is more specific than a
   * block, and between path scopes the relation is a strict order on their component counts.
   */
  lemma SpecificityCases(a: LeaseScope, b: LeaseScope, c: LeaseScope)
    ensures a.Block? ==> !IsMoreSpecificThan(a, b)
    ensures !a.Block? && b.Block? ==> IsMoreSpecificThan(a, b)
    ensures !a.Block? && !b.Block? ==> (IsMoreSpecificThan(a, b) <==> |a.path| > |b.path|)
    ensures !IsMoreSpecificThan(a, a)
    ensures IsMoreSpecificThan(a, b) ==> !IsMoreSpecificThan(b, a)
    ensures IsMoreSpecificThan(a, b) && IsMoreSpecificThan(b, c) ==> IsMoreSpecificThan(a, c)
  {
  }

  /** `Lease`. The renewal count is an unbounded counter. */
  datatype Lease = Lease(
    id: LeaseId,
    scope: LeaseScope,
    holder: string,
    grantedAt: Timestamp,
    expiresAt: Timestamp,
    renewalCount: nat,
    parentLease: Option<LeaseId>)

  /** `Lease::new` with the generated id passed in. */
  function NewLease(id: LeaseId, scope: LeaseScope, holder: string, grantedAt: Timestamp, durationMs: nat): Lease
  {
    Lease(id, scope, holder, grantedAt, Timestamp(grantedAt.physical + durationMs, 0), 0, None)
  }

  /** `is_expired(now)`: `now >= expires_at`. */
  predicate IsExpired(lease: Lease, now: Timestamp)
  {
    LessEq(lease.expiresAt, now)
  }

  /**
   * A new lease is unrenewed, undelegated, and expired exactly from the
   * millisecond `granted_at.physical + duration` on, whatever the logical part of `now`.
   */
  lemma NewLeaseExpiry(id: LeaseId, scope: LeaseScope, holder: string, grantedAt: Timestamp, durationMs: nat, now: Timestamp)
    ensures NewLease(id, scope, holder, grantedAt, durationMs).renewalCount == 0
    ensures NewLease(id, scope, holder, grantedAt, durationMs).parentLease == None
    ensures NewLease(id, scope, holder, grantedAt, durationMs).expiresAt.logical == 0
    ensures IsExpired(NewLease(id, scope, holder, grantedAt, durationMs), now) <==>
              now.physical >= grantedAt.physical + durationMs
  {
  }

  /** The expiration test of lines 225-238: a 30 s lease at 1000 is live at 30 999 and expired at 31 000. */
  lemma DefaultLeaseExpiry(id: LeaseId, scope: LeaseScope, holder: string)
    ensures !IsExpired(NewLease(id, scope, holder, Timestamp(1000, 0), DEFAULT_LEASE_DURATION_MS), Timestamp(30_999, 0))
    ensures IsExpired(NewLease(id, scope, holder, Timestamp(1000, 0), DEFAULT_LEASE_DURATION_MS), Timestamp(31_000, 0))
  {
  }

  /** `time_remaining(now)` in milliseconds. */
  function TimeRemaining(lease: Lease, now: Timestamp): (r: Option<nat>)
    ensures r.None? <==> IsExpired(lease, now)
    ensures r.Some? ==> now.physical + r.value == lease.expiresAt.physical
  {
    if LessEq(lease.expiresAt, now) then None else Some(lease.expiresAt.physical - now.physical)
  }

  /** `renew(now, duration)`: the renewed value of the lease. */
  function Renew(lease: Lease, now: Timestamp, durationMs: nat): Lease
  {
    lease.(expiresAt := Timestamp(now.physical + durationMs, 0), renewalCount := lease.renewalCount + 1)
  }

  /**
   * Renewal keeps id, scope, holder, grant time and parent, counts one more
   * renewal, and leaves the lease live at `now` iff the new duration is positive.
   */
  lemma RenewEffect(lease: Lease, now: Timestamp, durationMs: nat, later: Timestamp)
    ensures var r := Renew(lease, now, durationMs);
            r.id == lease.id && r.scope == lease.scope && r.holder == lease.holder &&
            r.grantedAt == lease.grantedAt && r.parentLease == lease.parentLease
    ensures Renew(lease, now, durationMs).renewalCount == lease.renewalCount + 1
    ensures Renew(lease, now, durationMs).expiresAt == Timestamp(now.physical + durationMs, 0)
    ensures !IsExpired(Renew(lease, now, durationMs), now) <==> durationMs > 0
    ensures IsExpired(Renew(lease, now, durationMs), later) <==> later.physical >= now.physical + durationMs
  {
  }

  /** The renewal test of lines 241-259: renewing at 26 000 for 30 s moves expiry from 31 000 to 56 000. */
  lemma RenewTest(id: LeaseId, scope: LeaseScope, holder: string)
    ensures var l := NewLease(id, scope, holder, Timestamp(1000, 0), DEFAULT_LEASE_DURATION_MS);
            l.expiresAt == Timestamp(31_000, 0) &&
            Renew(l, Timestamp(26_000, 0), DEFAULT_LEASE_DURATION_MS).expiresAt == Timestamp(56_000, 0) &&
            Renew(l, Timestamp(26_000, 0), DEFAULT_LEASE_DURATION_MS).renewalCount == 1
  {
  }

  /** `delegate(scope, holder, now)` with the child's generated id passed in. */
  function Delegate(parent: Lease, childId: LeaseId, scope: LeaseScope, holder: string, now: Timestamp): (child: Lease)
    ensures child.parentLease == Some(parent.id)
    ensures child.id == childId && child.scope == scope && child.holder == holder && child.grantedAt == now
    ensures child.renewalCount == 0
    ensures !IsExpired(parent, now) ==> LessEq(child.expiresAt, parent.expiresAt)
    ensures !IsExpired(parent, now) ==> child.expiresAt.physical == parent.expiresAt.physical
    ensures IsExpired(parent, now) ==> IsExpired(child, now)
  {
    NewLease(childId, scope, holder, now, TimeRemaining(parent, now).UnwrapOr(0)).(parentLease := Some(parent.id))
  }
}
