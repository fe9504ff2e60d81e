/** Declarations shared by the CRDTs of src/rhc/crdt/mod.rs. */
module CrdtBase {
  import opened Hlc

  /** `ActorId(String)`: a node or consensus-group id. */
  type ActorId = string

  /** `TimestampedValue<T>`. */
  datatype TimestampedValue<T> = TimestampedValue(value: T, timestamp: Timestamp)

  /** The derived `Ord` on `String`: lexicographic by character, a proper prefix first. */
  predicate StringLess(a: string, b: string)
  {
    if |a| == 0 then |b| > 0
    else if |b| == 0 then false
    else if a[0] != b[0] then a[0] < b[0]
    else StringLess(a[1..], b[1..])
  }

  /** `StringLess` is a strict total order. */
  lemma {:induction false} StringLessIsStrictTotal(a: string, b: string, c: string)
    ensures !StringLess(a, a)
    ensures StringLess(a, b) ==> !StringLess(b, a)
    ensures StringLess(a, b) && StringLess(b, c) ==> StringLess(a, c)
    ensures StringLess(a, b) || a == b || StringLess(b, a)
    decreases |a|
  {
    if |a| > 0 && |b| > 0 && |c| > 0 {
      StringLessIsStrictTotal(a[1..], b[1..], c[1..]);
      if a[0] == b[0] && a[1..] == b[1..] {
        assert a == [a[0]] + a[1..] && b == [b[0]] + b[1..];
      }
    } else if |a| > 0 && |b| > 0 {
      StringLessIsStrictTotal(a[1..], b[1..], b[1..]);
      if a[0] == b[0] && a[1..] == b[1..] {
        assert a == [a[0]] + a[1..] && b == [b[0]] + b[1..];
      }
    } else if |a| > 0 && |c| > 0 {
      StringLessIsStrictTotal(a[1..], a[1..], c[1..]);
    } else if |a| > 0 {
      StringLessIsStrictTotal(a[1..], a[1..], a[1..]);
    }
  }
}
