/**
 * The positive-negative counter of src/rhc/crdt/pn_counter.rs.
 *
 * Per-actor counts are unbounded naturals (the source's `u64` cells), and
 * `value` is the difference of the two sums as an unbounded integer.
 */
module PnCounter {
  import opened CrdtBase

  type Counts = map<ActorId, nat>

  /** `positive_count` / `negative_count`: a missing actor counts 0. */
  function Count(m: Counts, actor: ActorId): nat
  {
    if actor in m then m[actor] else 0
  }

  function Max(a: nat, b: nat): nat { if a >= b then a else b }

  /** The sum of all counts (`values().sum()`). */
  ghost function Sum(m: Counts): nat
  {
    if m == map[] then 0
    else
      var k :| k in m;
      m[k] + Sum(m - {k})
  }

  /** The sum can be taken apart at any actor. */
  lemma {:induction false} SumRemove(m: Counts, k: ActorId)
    requires k in m
    ensures Sum(m) == m[k] + Sum(m - {k})
    decreases |m|
  {
    var j :| j in m && Sum(m) == m[j] + Sum(m - {j});
    if j != k {
      SumRemove(m - {j}, k);
      SumRemove(m - {k}, j);
      assert m - {j} - {k} == m - {k} - {j};
    }
  }

  /** The counts after adding `amount` for `actor` (`*entry.or_insert(0) += amount`). */
  function Added(m: Counts, actor: ActorId, amount: nat): Counts
  {
    m[actor := Count(m, actor) + amount]
  }

  /** Adding for one actor changes only that actor's count, and raises the sum by exactly the amount. */
  lemma AddedEffect(m: Counts, actor: ActorId, amount: nat)
    ensures Count(Added(m, actor, amount), actor) == Count(m, actor) + amount
    ensures forall a :: a != actor ==> Count(Added(m, actor, amount), a) == Count(m, a)
    ensures Sum(Added(m, actor, amount)) == Sum(m) + amount
  {
    var m' := Added(m, actor, amount);
    SumRemove(m', actor);
    assert m' - {actor} == m - {actor};
    if actor in m {
      SumRemove(m, actor);
    } else {
      assert m - {actor} == m;
    }
  }

  /** Pointwise maximum over the union of actors (`merge`, lines 53-65). */
  function MaxMerge(a: Counts, b: Counts): Counts
  {
    map k | k in a.Keys + b.Keys :: Max(Count(a, k), Count(b, k))
  }

  /** Merge takes the larger count per actor, treating a missing actor as 0. */
  lemma MaxMergeCount(a: Counts, b: Counts, k: ActorId)
    ensures Count(MaxMerge(a, b), k) == Max(Count(a, k), Count(b, k))
    ensures Count(a, k) <= Count(MaxMerge(a, b), k) && Count(b, k) <= Count(MaxMerge(a, b), k)
  {
  }

  /** Merge is commutative and idempotent. */
  lemma MaxMergeCommutativeIdempotent(a: Counts, b: Counts)
    ensures MaxMerge(a, b) == MaxMerge(b, a)
    ensures MaxMerge(a, a) == a
  {
    assert MaxMerge(a, a).Keys == a.Keys;
  }

  /** Merge is associative. */
  lemma MaxMergeAssociative(a: Counts, b: Counts, c: Counts)
    ensures MaxMerge(MaxMerge(a, b), c) == MaxMerge(a, MaxMerge(b, c))
  {
    var ab, bc := MaxMerge(a, b), MaxMerge(b, c);
    var l, r := MaxMerge(ab, c), MaxMerge(a, bc);
    assert l.Keys == r.Keys;
    forall k | k in l ensures l[k] == r[k] {
      assert l[k] == Max(Count(ab, k), Count(c, k));
      assert r[k] == Max(Count(a, k), Count(bc, k));
      MaxMergeCount(a, b, k);
      MaxMergeCount(b, c, k);
    }
  }

  /** The value of a counter: the positive sum minus the negative sum. */
  ghost function ValueOf(positive: Counts, negative: Counts): int
  {
    Sum(positive) - Sum(negative)
  }

  /** The first test (lines 83-95): +5 and +3 give 8, then -2 gives 6. */
  lemma BasicTest()
    ensures var p := Added(Added(map[], "node1", 5), "node2", 3);
            ValueOf(p, map[]) == 8 && ValueOf(p, Added(map[], "node1", 2)) == 6
  {
    AddedEffect(map[], "node1", 5);
    AddedEffect(Added(map[], "node1", 5), "node2", 3);
    AddedEffect(map[], "node1", 2);
  }

  /** The merge test (lines 97-118): per-actor maxima 5 and 3 and a negative 2 give the value 6. */
  lemma MergeTest()
    ensures var p := MaxMerge(Added(map[], "node1", 5), Added(Added(map[], "node2", 3), "node1", 2));
            var n := MaxMerge(Added(map[], "node1", 2), map[]);
            Count(p, "node1") == 5 && Count(p, "node2") == 3 && Count(n, "node1") == 2 && ValueOf(p, n) == 6
  {
    var p := MaxMerge(Added(map[], "node1", 5), Added(Added(map[], "node2", 3), "node1", 2));
    var n := MaxMerge(Added(map[], "node1", 2), map[]);
    assert p == map["node1" := 5, "node2" := 3];
    assert n == map["node1" := 2];
    AddedEffect(map[], "node1", 5);
    AddedEffect(map["node1" := 5], "node2", 3);
    assert map["node1" := 5][ "node2" := 3] == p;
    AddedEffect(map[], "node1", 2);
  }

  /** `PNCounter`. */
  class PNCounter {
    var positive: Counts
    var negative: Counts

    constructor ()
      ensures positive == map[] && negative == map[]
    {
      positive := map[];
      negative := map[];
    }

    /** `increment(actor, amount)`. */
    method Increment(actor: ActorId, amount: nat)
      modifies this
      ensures positive == Added(old(positive), actor, amount) && negative == old(negative)
    {
      positive := positive[actor := Count(positive, actor) + amount];
    }

    /** `decrement(actor, amount)`. */
    method Decrement(actor: ActorId, amount: nat)
      modifies this
      ensures negative == Added(old(negative), actor, amount) && positive == old(positive)
    {
      negative := negative[actor := Count(negative, actor) + amount];
    }

    /** `value()`: both sums, each taken over the map in an arbitrary order. */
    method Value() returns (v: int)
      ensures v == Sum(positive) - Sum(negative)
    {
      var pos := SumOf(positive);
      var neg := SumOf(negative);
      v := pos as int - neg as int;
    }

    /** `positive_count(actor)`. */
    function PositiveCount(actor: ActorId): nat
      reads this
    {
      Count(positive, actor)
    }

    /** `negative_count(actor)`. */
    function NegativeCount(actor: ActorId): nat
      reads this
    {
      Count(negative, actor)
    }

    /** `merge(other)`: one loop over each of the other counter's maps. */
    method Merge(other: PNCounter)
      modifies this
      ensures positive == MaxMerge(old(positive), old(other.positive))
      ensures negative == MaxMerge(old(negative), old(other.negative))
    {
      var theirPositive, theirNegative := other.positive, other.negative;
      positive := MergeInto(positive, theirPositive);
      negative := MergeInto(negative, theirNegative);
    }
  }

  /** `values().sum()` as a loop over the keys. */
  method SumOf(m: Counts) returns (s: nat)
    ensures s == Sum(m)
  {
    s := 0;
    var rest := m;
    while rest != map[]
      invariant s + Sum(rest) == Sum(m)
      decreases |rest|
    {
      var k :| k in rest;
      SumRemove(rest, k);
      s := s + rest[k];
      rest := rest - {k};
    }
  }

  /** One loop of `merge`: for each actor of `theirs`, keep the larger count. */
  method MergeInto(mine: Counts, theirs: Counts) returns (r: Counts)
    ensures r == MaxMerge(mine, theirs)
  {
    r := mine;
    var pending := theirs.Keys;
    while pending != {}
      invariant pending <= theirs.Keys
      invariant r.Keys == mine.Keys + (theirs.Keys - pending)
      invariant forall k :: k in r ==> r[k] == if k in theirs.Keys - pending then Max(Count(mine, k), theirs[k]) else mine[k]
      decreases pending
    {
      var k :| k in pending;
      r := r[k := Max(Count(r, k), theirs[k])];
      pending := pending - {k};
    }
    assert r == MaxMerge(mine, theirs);
  }
}
