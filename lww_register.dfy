/**
 * The last-write-wins register of src/rhc/crdt/lww_register.rs.
 *
 * A register is an optional timestamped value. `Assigned` and `Joined` give
 * the new contents after `set` and `merge`; the class `LWWRegister` holds the
 * contents as a field and its methods perform those updates.
 */
module LwwRegister {
  import opened Wrappers
  import opened Hlc
  import opened CrdtBase

  type Register<T> = Option<TimestampedValue<T>>

  /** The contents after `set(value, timestamp)` (lines 19-31). */
  function Assigned<T>(r: Register<T>, value: T, timestamp: Timestamp): Register<T>
  {
    if r.None? || Less(r.value.timestamp, timestamp) then Some(TimestampedValue(value, timestamp)) else r
  }

  /** The contents after `merge(other)` (lines 50-64). */
  function Joined<T>(r: Register<T>, other: Register<T>): Register<T>
  {
    if other.None? then r
    else if r.None? || Less(r.value.timestamp, other.value.timestamp) then other
    else r
  }

  /** `timestamp()`. */
  function TimestampOf<T>(r: Register<T>): Option<Timestamp>
  {
    if r.Some? then Some(r.value.timestamp) else None
  }

  /** `happens_before` (lines 66-72). */
  predicate HappensBefore<T>(r: Register<T>, other: Register<T>)
  {
    match (r, other)
    case (Some(a), Some(b)) => Less(a.timestamp, b.timestamp)
    case (None, Some(_)) => true
    case _ => false
  }

  /**
   * `set` installs the value when the register is empty or the timestamp is
   * strictly newer, and ignores an equal or older write.
   */
  lemma AssignOutcome<T>(r: Register<T>, value: T, timestamp: Timestamp)
    ensures r.None? || Less(r.value.timestamp, timestamp) ==>
              Assigned(r, value, timestamp) == Some(TimestampedValue(value, timestamp))
    ensures r.Some? && !Less(r.value.timestamp, timestamp) ==> Assigned(r, value, timestamp) == r
    ensures TimestampOf(Assigned(r, value, timestamp)).Some?
    ensures r.Some? ==> LessEq(r.value.timestamp, Assigned(r, value, timestamp).value.timestamp)
  {
  }

  /** The test of lines 85-102: writes at 100 and 200 are taken, a later write at 50 is not. */
  lemma AssignTest()
    ensures var r := Assigned(Assigned(None, "value1", Timestamp(100, 0)), "value2", Timestamp(200, 0));
            r == Some(TimestampedValue("value2", Timestamp(200, 0))) &&
            Assigned(r, "value0", Timestamp(50, 0)) == r
  {
  }

  /**
   * `merge` adopts the other contents exactly when the register is empty or
   * the other timestamp is strictly greater; the merged timestamp is the
   * greater of the two, so merging never lowers it.
   */
  lemma JoinOutcome<T>(r: Register<T>, other: Register<T>)
    ensures other.Some? && (r.None? || Less(r.value.timestamp, other.value.timestamp)) ==> Joined(r, other) == other
    ensures !(other.Some? && (r.None? || Less(r.value.timestamp, other.value.timestamp))) ==> Joined(r, other) == r
    ensures Joined(r, other).None? <==> r.None? && other.None?
    ensures r.Some? ==> LessEq(r.value.timestamp, Joined(r, other).value.timestamp)
    ensures other.Some? ==> LessEq(other.value.timestamp, Joined(r, other).value.timestamp)
  {
    if r.Some? && other.Some? {
      OrderIsStrictTotal(r.value.timestamp, other.value.timestamp, r.value.timestamp);
    }
  }

  /** Merging a register with itself changes nothing. */
  lemma JoinIdempotent<T>(r: Register<T>)
    ensures Joined(r, r) == r
  {
  }

  /**
   * Merge is associative, ties included: both groupings keep the leftmost of
   * the greatest timestamps.
   */
  lemma JoinAssociative<T>(a: Register<T>, b: Register<T>, c: Register<T>)
    ensures Joined(Joined(a, b), c) == Joined(a, Joined(b, c))
  {
    if a.Some? && b.Some? && c.Some? {
      OrderIsStrictTotal(a.value.timestamp, b.value.timestamp, c.value.timestamp);
      OrderIsStrictTotal(b.value.timestamp, c.value.timestamp, a.value.timestamp);
      OrderIsStrictTotal(c.value.timestamp, a.value.timestamp, b.value.timestamp);
    }
  }

  /** Merge is commutative when the two timestamps differ (or a side is empty). */
  lemma JoinCommutativeOnDistinctTimestamps<T>(a: Register<T>, b: Register<T>)
    requires a.Some? && b.Some? ==> a.value.timestamp != b.value.timestamp
    ensures Joined(a, b) == Joined(b, a)
  {
    if a.Some? && b.Some? {
      OrderIsStrictTotal(a.value.timestamp, b.value.timestamp, a.value.timestamp);
    }
  }

  /**
   * On equal timestamps each side keeps its own value: there is no
   * tie-break, so merge is not commutative then.
   */
  lemma JoinTieKeepsReceiver<T>(x: T, y: T, t: Timestamp)
    requires x != y
    ensures Joined(Some(TimestampedValue(x, t)), Some(TimestampedValue(y, t))) == Some(TimestampedValue(x, t))
    ensures Joined(Some(TimestampedValue(x, t)), Some(TimestampedValue(y, t))) !=
            Joined(Some(TimestampedValue(y, t)), Some(TimestampedValue(x, t)))
  {
  }

  /**
   * `happens_before` is a strict order, and when it holds the merge result
   * is the other register.
   */
  lemma HappensBeforeFacts<T>(a: Register<T>, b: Register<T>, c: Register<T>)
    ensures !HappensBefore(a, a)
    ensures HappensBefore(a, b) && HappensBefore(b, c) ==> HappensBefore(a, c)
    ensures HappensBefore(a, b) ==> !HappensBefore(b, a)
    ensures HappensBefore(a, b) ==> Joined(a, b) == b
    ensures HappensBefore(a, b) <==> b.Some? && (a.None? || Less(a.value.timestamp, b.value.timestamp))
  {
    if a.Some? && b.Some? && c.Some? {
      OrderIsStrictTotal(a.value.timestamp, b.value.timestamp, c.value.timestamp);
    }
  }

  /**
   * The merge the comment at line 118 calls commutative: a timestamp tie is
   * broken by `before`, an order on values, the later value winning.
   */
  function JoinedTieBroken<T>(r: Register<T>, other: Register<T>, before: (T, T) -> bool): Register<T>
  {
    if other.None? then r
    else if r.None? || Less(r.value.timestamp, other.value.timestamp) then other
    else if r.value.timestamp == other.value.timestamp && before(r.value.value, other.value.value) then other
    else r
  }

  /** `before` puts any two distinct values one way round, and never both. */
  ghost predicate Decides<T(!new)>(before: (T, T) -> bool)
  {
    forall x, y :: x != y ==> (before(x, y) <==> !before(y, x))
  }

  /** With a deciding tie-break the merge is commutative, ties included. */
  lemma TieBrokenJoinCommutative<T(!new)>(a: Register<T>, b: Register<T>, before: (T, T) -> bool)
    requires Decides(before)
    ensures JoinedTieBroken(a, b, before) == JoinedTieBroken(b, a, before)
  {
    if a.Some? && b.Some? {
      OrderIsStrictTotal(a.value.timestamp, b.value.timestamp, a.value.timestamp);
      if a.value.timestamp == b.value.timestamp && a.value.value != b.value.value {
        assert before(a.value.value, b.value.value) <==> !before(b.value.value, a.value.value);
      }
    }
  }

  /** Off a tie the tie-broken merge is the merge of lines 50-64. */
  lemma TieBrokenAgreesOffTies<T>(a: Register<T>, b: Register<T>, before: (T, T) -> bool)
    requires a.Some? && b.Some? ==> a.value.timestamp != b.value.timestamp
    ensures JoinedTieBroken(a, b, before) == Joined(a, b)
  {
  }

  /** `LWWRegister<T>`. */
  class LWWRegister<T> {
    var value: Register<T>

    /** `LWWRegister::new()`: empty. */
    constructor ()
      ensures value == None
    {
      value := None;
    }

    /** `set(value, timestamp)`. */
    method Set(v: T, timestamp: Timestamp)
      modifies this
      ensures value == Assigned(old(value), v, timestamp)
    {
      match value {
        case None =>
          value := Some(TimestampedValue(v, timestamp));
        case Some(current) =>
          if Less(current.timestamp, timestamp) {
            value := Some(TimestampedValue(v, timestamp));
          }
      }
    }

    /** `get()`. */
    function Get(): (r: Option<T>)
      reads this
      ensures r.Some? <==> value.Some?
      ensures r.Some? ==> r.value == value.value.value
    {
      if value.Some? then Some(value.value.value) else None
    }

    /** `merge(other)`. */
    method Merge(other: LWWRegister<T>)
      modifies this
      ensures value == Joined(old(value), old(other.value))
    {
      var theirs := other.value;
      match (value, theirs) {
        case (_, None) =>
        case (None, Some(o)) =>
          value := Some(o);
        case (Some(mine), Some(o)) =>
          if Less(mine.timestamp, o.timestamp) {
            value := Some(o);
          }
      }
    }
  }
}
