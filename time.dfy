/**
 * The offset-based hybrid clock of rhc/src/time.rs.
 *
 * The wall clock `Utc::now()` is the parameter `utcNow`, an integer count of
 * milliseconds. The clock keeps a physical offset (ms) and a logical counter,
 * both signed 64-bit cells, here unbounded integers.
 */
module HybridTime {
  /** `HybridTimestamp { physical, logical: i64 }`. */
  datatype HybridTimestamp = HybridTimestamp(physical: int, logical: int)

  /** The derived `Ord`: lexicographic on (physical, logical). */
  predicate Less(a: HybridTimestamp, b: HybridTimestamp)
  {
    a.physical < b.physical || (a.physical == b.physical && a.logical < b.logical)
  }

  /** The two cells of the clock. */
  datatype Cells = Cells(physicalOffset: int, logicalCounter: int)

  function Max(a: int, b: int): int { if a >= b then a else b }

  /** The timestamp `now()` returns: offset wall time and the counter before `fetch_add`. */
  function NowStamp(c: Cells, utcNow: int): HybridTimestamp
  {
    HybridTimestamp(utcNow + c.physicalOffset, c.logicalCounter)
  }

  /** The cells after `now()`: the counter advanced by exactly one. */
  function AfterNow(c: Cells): Cells
  {
    Cells(c.physicalOffset, c.logicalCounter + 1)
  }

  /** The cells after `update(remote)` (lines 30-39). */
  function AfterUpdate(c: Cells, remote: HybridTimestamp, utcNow: int): Cells
  {
    var diff := remote.physical - utcNow;
    Cells(if diff > 0 then Max(c.physicalOffset, diff) else c.physicalOffset,
          Max(c.logicalCounter, remote.logical + 1))
  }

  /** Two successive `now()` calls return strictly increasing logical values. */
  lemma SuccessiveNowIncreases(c: Cells, utc1: int, utc2: int)
    ensures NowStamp(AfterNow(c), utc2).logical == NowStamp(c, utc1).logical + 1
    ensures utc1 <= utc2 ==> Less(NowStamp(c, utc1), NowStamp(AfterNow(c), utc2))
  {
  }

  /**
   * `update` never lowers either cell; it raises the offset only to a positive
   * difference larger than the old offset, and leaves the counter at least
   * `remote.logical + 1`.
   */
  lemma UpdateNeverDecreases(c: Cells, remote: HybridTimestamp, utcNow: int)
    ensures AfterUpdate(c, remote, utcNow).physicalOffset >= c.physicalOffset
    ensures AfterUpdate(c, remote, utcNow).physicalOffset != c.physicalOffset ==>
              AfterUpdate(c, remote, utcNow).physicalOffset == remote.physical - utcNow > 0
    ensures AfterUpdate(c, remote, utcNow).logicalCounter >= c.logicalCounter
    ensures AfterUpdate(c, remote, utcNow).logicalCounter >= remote.logical + 1
  {
  }

  /**
   * After `update(remote)`, the next `now()` has a logical value above the
   * remote one; if the wall clock has not gone backwards it is also not
   * earlier physically, so the new timestamp is strictly later than the remote.
   */
  lemma NowAfterUpdateIsLater(c: Cells, remote: HybridTimestamp, utc1: int, utc2: int)
    ensures NowStamp(AfterUpdate(c, remote, utc1), utc2).logical > remote.logical
    ensures c.physicalOffset >= 0 && utc1 <= utc2 ==>
              NowStamp(AfterUpdate(c, remote, utc1), utc2).physical >= remote.physical
    ensures c.physicalOffset >= 0 && utc1 <= utc2 ==>
              Less(remote, NowStamp(AfterUpdate(c, remote, utc1), utc2))
  {
  }

  /** `HybridClock` with its two atomics modelled as plain fields. */
  class HybridClock {
    var physicalOffset: int
    var logicalCounter: int

    function State(): Cells
      reads this
    {
      Cells(physicalOffset, logicalCounter)
    }

    constructor ()
      ensures State() == Cells(0, 0)
    {
      physicalOffset := 0;
      logicalCounter := 0;
    }

    method Now(utcNow: int) returns (t: HybridTimestamp)
      modifies this
      ensures t == NowStamp(old(State()), utcNow)
      ensures State() == AfterNow(old(State()))
    {
      t := HybridTimestamp(utcNow + physicalOffset, logicalCounter);
      logicalCounter := logicalCounter + 1;
    }

    method Update(remote: HybridTimestamp, utcNow: int)
      modifies this
      ensures State() == AfterUpdate(old(State()), remote, utcNow)
    {
      var diff := remote.physical - utcNow;
      if diff > 0 {
        physicalOffset := Max(physicalOffset, diff);
      }
      logicalCounter := Max(logicalCounter, remote.logical + 1);
    }
  }
}
