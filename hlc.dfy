/**
 * Hybrid logical clock of src/rhc/hlc.rs.
 *
 * The clock keeps two unsigned 64-bit cells, the last physical time (ms) and the
 * last logical counter. `now` and `update` read the wall clock; here that
 * reading is the parameter `wall`. Timestamps carry a 32-bit logical part: the
 * cast `as u32` and the 32-bit `+ 1` are written out as reduction modulo 2^32.
 */
module Hlc {
  import opened Wrappers

  /** Largest tolerated distance (ms) of a remote timestamp into the future. */
  const MAX_CLOCK_DRIFT_MS: nat := 60_000

  const U32_MODULUS: nat := 0x1_0000_0000

  type U32 = x: nat | x < U32_MODULUS

  /** `x as u32` for a non-negative x. */
  function Wrap32(x: nat): (r: U32)
    ensures x < U32_MODULUS ==> r == x
  {
    x % U32_MODULUS
  }

  function Max(a: nat, b: nat): nat { if a >= b then a else b }

  /** `HLCTimestamp { physical: u64, logical: u32 }`. */
  datatype Timestamp = Timestamp(physical: nat, logical: U32)

  /** The derived `Ord`: lexicographic on (physical, logical). */
  predicate Less(a: Timestamp, b: Timestamp)
  {
    a.physical < b.physical || (a.physical == b.physical && a.logical < b.logical)
  }

  predicate LessEq(a: Timestamp, b: Timestamp)
  {
    Less(a, b) || a == b
  }

  /** `Less` is a strict total order. */
  lemma OrderIsStrictTotal(a: Timestamp, b: Timestamp, c: Timestamp)
    ensures !Less(a, a)
    ensures Less(a, b) ==> !Less(b, a)
    ensures Less(a, b) && Less(b, c) ==> Less(a, c)
    ensures Less(a, b) || a == b || Less(b, a)
  {
  }

  const Zero := Timestamp(0, 0)

  /** `is_within_drift`: a timestamp in the past is always accepted, one in the future only up to 60 s ahead. */
  function IsWithinDrift(t: Timestamp, nowMs: nat): (r: bool)
    ensures r <==> t.physical <= nowMs + MAX_CLOCK_DRIFT_MS
    ensures t.physical <= nowMs ==> r
  {
    if t.physical > nowMs then t.physical - nowMs <= MAX_CLOCK_DRIFT_MS else true
  }

  /** The two 64-bit cells `last_physical` and `last_logical`. */
  datatype ClockState = ClockState(physical: nat, logical: nat)

  /** Strict lexicographic order of clock states. */
  predicate StateLess(a: ClockState, b: ClockState)
  {
    a.physical < b.physical || (a.physical == b.physical && a.logical < b.logical)
  }

  /** `last()`: the stored cells read back as a timestamp, logical cast to 32 bits. */
  function Stamp(s: ClockState): Timestamp
  {
    Timestamp(s.physical, Wrap32(s.logical))
  }

  /** The cells after `now()` (lines 98-108). */
  function NextNow(s: ClockState, wall: nat): ClockState
  {
    if wall > s.physical then ClockState(wall, 0) else ClockState(s.physical, s.logical + 1)
  }

  /**
   * `now()` always moves the stored cells strictly forward: to the new wall
   * time with logical 0, or to the same physical time with logical + 1. The
   * returned timestamp is strictly later than the previous `last()` unless the
   * 32-bit cast wraps.
   */
  lemma NowAdvances(s: ClockState, wall: nat)
    ensures StateLess(s, NextNow(s, wall))
    ensures NextNow(s, wall).physical == Max(wall, s.physical)
    ensures wall > s.physical ==> NextNow(s, wall) == ClockState(wall, 0)
    ensures wall <= s.physical ==> NextNow(s, wall) == ClockState(s.physical, s.logical + 1)
    ensures s.logical + 1 < U32_MODULUS ==> Less(Stamp(s), Stamp(NextNow(s, wall)))
  {
  }

  datatype HlcError = ClockDriftExceeded(remotePhysical: nat, localPhysical: nat, maxDrift: nat)

  /** `max(max(physical_now, remote.physical), last_physical)`. */
  function MaxPhysical(s: ClockState, remote: Timestamp, wall: nat): nat
  {
    Max(Max(wall, remote.physical), s.physical)
  }

  /** `update` exactly as src/rhc/hlc.rs:118-159 writes it. */
  function UpdateAsWritten(s: ClockState, remote: Timestamp, wall: nat): Result<Timestamp, HlcError>
  {
    if !IsWithinDrift(remote, wall) then
      Err(ClockDriftExceeded(remote.physical, wall, MAX_CLOCK_DRIFT_MS))
    else
      var m := MaxPhysical(s, remote, wall);
      var l :=
        if m == wall && m == remote.physical then Wrap32(Max(remote.logical, Wrap32(s.logical)) + 1)
        else if m == wall then 0
        else if m == remote.physical then Wrap32(remote.logical + 1)
        else Wrap32(Wrap32(s.logical) + 1);
      Ok(Timestamp(m, l))
  }

  /**
   * The code as written can return a timestamp below the previous `last()`:
   * the branches at lines 140-145 forget `last_logical` when `last_physical`
   * equals the maximum.
   */
  lemma UpdateAsWrittenNotMonotone()
    ensures var s := ClockState(100, 5);
            var r := UpdateAsWritten(s, Timestamp(50, 0), 100);
            r.Ok? && Less(r.value, Stamp(s))
    ensures var s := ClockState(100, 5);
            var r := UpdateAsWritten(s, Timestamp(100, 0), 50);
            r.Ok? && Less(r.value, Stamp(s))
  {
  }

  /**
   * `update` with the evidently intended logical counter: whenever the stored
   * physical time ties the maximum, the stored logical counter also takes part
   * in the `max(...) + 1`. Every other case is computed as at lines 137-149.
   */
  function CorrectedUpdate(s: ClockState, remote: Timestamp, wall: nat): (r: Result<Timestamp, HlcError>)
    ensures r.Err? <==> !IsWithinDrift(remote, wall)
    ensures r.Err? ==> r.error == ClockDriftExceeded(remote.physical, wall, MAX_CLOCK_DRIFT_MS)
    ensures r.Ok? ==> r.value.physical == Max(Max(wall, remote.physical), s.physical)
  {
    if !IsWithinDrift(remote, wall) then
      Err(ClockDriftExceeded(remote.physical, wall, MAX_CLOCK_DRIFT_MS))
    else
      var m := MaxPhysical(s, remote, wall);
      var l :=
        if m == wall && m == remote.physical then Wrap32(Max(remote.logical, Wrap32(s.logical)) + 1)
        else if m == wall then (if m == s.physical then Wrap32(Wrap32(s.logical) + 1) else 0)
        else if m == remote.physical then
          (if m == s.physical then Wrap32(Max(remote.logical, Wrap32(s.logical)) + 1) else Wrap32(remote.logical + 1))
        else Wrap32(Wrap32(s.logical) + 1);
      Ok(Timestamp(m, l))
  }

  /** The corrected `update` differs from the code as written only when `last_physical` ties the maximum. */
  lemma UpdateAgreesWithAsWritten(s: ClockState, remote: Timestamp, wall: nat)
    requires s.physical < MaxPhysical(s, remote, wall) || (wall == remote.physical && remote.physical == s.physical)
    ensures CorrectedUpdate(s, remote, wall) == UpdateAsWritten(s, remote, wall)
  {
  }

  /** Cases of `update` stated by the source's tests (lines 258-310). */
  lemma UpdateCases(s: ClockState, remote: Timestamp, wall: nat)
    requires IsWithinDrift(remote, wall)
    ensures remote.physical > wall && remote.physical > s.physical ==>
              CorrectedUpdate(s, remote, wall) == Ok(Timestamp(remote.physical, Wrap32(remote.logical + 1)))
    ensures remote.physical == wall && wall >= s.physical ==>
              CorrectedUpdate(s, remote, wall) == Ok(Timestamp(wall, Wrap32(Max(remote.logical, Wrap32(s.logical)) + 1)))
    ensures wall > remote.physical && wall > s.physical ==> CorrectedUpdate(s, remote, wall) == Ok(Timestamp(wall, 0))
  {
  }

  /**
   * The corrected `update` never goes below the previous `last()` and is
   * strictly later than both it and the remote timestamp, as long as the
   * 32-bit logical counter does not wrap.
   */
  lemma UpdateMonotone(s: ClockState, remote: Timestamp, wall: nat)
    requires IsWithinDrift(remote, wall)
    requires Max(remote.logical, Wrap32(s.logical)) + 1 < U32_MODULUS
    ensures CorrectedUpdate(s, remote, wall).Ok?
    ensures Less(Stamp(s), CorrectedUpdate(s, remote, wall).value)
    ensures Less(remote, CorrectedUpdate(s, remote, wall).value)
  {
    var m := MaxPhysical(s, remote, wall);
    var r := CorrectedUpdate(s, remote, wall).value;
    assert r.physical == m;
    if m == s.physical {
      assert r.logical > Wrap32(s.logical);
    }
    if m == remote.physical {
      assert r.logical > remote.logical;
    }
  }

  /** The cells after `update`: the returned time on success, unchanged on a refusal. */
  function StateAfterUpdate(s: ClockState, remote: Timestamp, wall: nat): (r: ClockState)
    ensures !IsWithinDrift(remote, wall) ==> r == s
    ensures IsWithinDrift(remote, wall) ==> r.physical == MaxPhysical(s, remote, wall)
  {
    match CorrectedUpdate(s, remote, wall)
    case Ok(t) => ClockState(t.physical, t.logical)
    case Err(_) => s
  }

  /** `HLC` with its two atomics modelled as plain fields. */
  class Clock {
    var lastPhysical: nat
    var lastLogical: nat

    function State(): ClockState
      reads this
    {
      ClockState(lastPhysical, lastLogical)
    }

    /** `last()`. */
    function Last(): Timestamp
      reads this
    {
      Stamp(State())
    }

    /** `HLC::new()`: both cells start at zero. */
    constructor ()
      ensures State() == ClockState(0, 0)
      ensures Last() == Zero
    {
      lastPhysical := 0;
      lastLogical := 0;
    }

    /** `now()` with the wall-clock reading `wall`. */
    method Now(wall: nat) returns (t: Timestamp)
      modifies this
      ensures State() == NextNow(old(State()), wall)
      ensures StateLess(old(State()), State())
      ensures t == Last()
    {
      var newPhysical: nat, newLogical: nat;
      if wall > lastPhysical {
        newPhysical, newLogical := wall, 0;
      } else {
        newPhysical, newLogical := lastPhysical, lastLogical + 1;
      }
      NowAdvances(State(), wall);
      lastPhysical := newPhysical;
      lastLogical := newLogical;
      t := Timestamp(newPhysical, Wrap32(newLogical));
    }

    /** `update(remote)` with the wall-clock reading `wall`. */
    method Update(remote: Timestamp, wall: nat) returns (r: Result<Timestamp, HlcError>)
      modifies this
      ensures r == CorrectedUpdate(old(State()), remote, wall)
      ensures r.Err? ==> State() == old(State())
      ensures r.Ok? ==> Last() == r.value && State() == ClockState(r.value.physical, r.value.logical)
      ensures State() == StateAfterUpdate(old(State()), remote, wall)
    {
      r := CorrectedUpdate(State(), remote, wall);
      if r.Ok? {
        lastPhysical := r.value.physical;
        lastLogical := r.value.logical;
      }
    }
  }
}
