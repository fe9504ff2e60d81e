/**
 * The observed-remove set of src/rhc/crdt/or_set.rs: a map from each element
 * to its set of (actor, timestamp) tags; an element is present iff it is a key.
 */
module OrSet {
  import opened Wrappers
  import opened Hlc
  import opened CrdtBase

  type Tag = (ActorId, Timestamp)

  type Entries<T> = map<T, set<Tag>>

  /** The tags of `e`, none if absent. */
  function TagsOf<T>(m: Entries<T>, e: T): set<Tag>
  {
    if e in m then m[e] else {}
  }

  /** The entries after `add(e, actor, timestamp)`. */
  function WithTag<T>(m: Entries<T>, e: T, tag: Tag): Entries<T>
  {
    m[e := TagsOf(m, e) + {tag}]
  }

  /** `merge`: a per-element union of tag sets. */
  function Union<T>(a: Entries<T>, b: Entries<T>): Entries<T>
  {
    map e | e in a.Keys + b.Keys :: TagsOf(a, e) + TagsOf(b, e)
  }

  /** `add` makes the element present with the new tag and its old tags, and changes no other element. */
  lemma AddEffect<T>(m: Entries<T>, e: T, tag: Tag, x: T)
    ensures e in WithTag(m, e, tag) && TagsOf(WithTag(m, e, tag), e) == TagsOf(m, e) + {tag}
    ensures x != e ==> TagsOf(WithTag(m, e, tag), x) == TagsOf(m, x) && (x in WithTag(m, e, tag) <==> x in m)
  {
  }

  /** `remove` drops the element and all its tags, and changes no other element. */
  lemma RemoveEffect<T>(m: Entries<T>, e: T, x: T)
    ensures e !in m - {e} && TagsOf(m - {e}, e) == {}
    ensures x != e ==> TagsOf(m - {e}, x) == TagsOf(m, x) && (x in m - {e} <==> x in m)
  {
  }

  /** After `merge` an element is present iff it was on either side, with the tags of both. */
  lemma UnionEffect<T>(a: Entries<T>, b: Entries<T>, e: T)
    ensures e in Union(a, b) <==> e in a || e in b
    ensures TagsOf(Union(a, b), e) == TagsOf(a, e) + TagsOf(b, e)
  {
  }

  /** Merge is commutative and idempotent. */
  lemma UnionCommutativeIdempotent<T>(a: Entries<T>, b: Entries<T>)
    ensures Union(a, b) == Union(b, a)
    ensures Union(a, a) == a
  {
    assert Union(a, b).Keys == Union(b, a).Keys;
    forall e | e in Union(a, b) ensures Union(a, b)[e] == Union(b, a)[e] {
      assert TagsOf(a, e) + TagsOf(b, e) == TagsOf(b, e) + TagsOf(a, e);
    }
    assert Union(a, a).Keys == a.Keys;
    forall e | e in a ensures Union(a, a)[e] == a[e] {
      assert TagsOf(a, e) + TagsOf(a, e) == a[e];
    }
  }

  /** Merge is associative. */
  lemma UnionAssociative<T>(a: Entries<T>, b: Entries<T>, c: Entries<T>)
    ensures Union(Union(a, b), c) == Union(a, Union(b, c))
  {
    var ab, bc := Union(a, b), Union(b, c);
    var l, r := Union(ab, c), Union(a, bc);
    forall e ensures (e in l <==> e in r) && TagsOf(l, e) == TagsOf(r, e) {
      UnionEffect(a, b, e);
      UnionEffect(b, c, e);
      UnionEffect(ab, c, e);
      UnionEffect(a, bc, e);
    }
    SameEntries(l, r);
  }

  /** Entries with the same elements and the same tags for each are equal. */
  lemma SameEntries<T>(l: Entries<T>, r: Entries<T>)
    requires forall e :: (e in l <==> e in r) && TagsOf(l, e) == TagsOf(r, e)
    ensures l == r
  {
    assert l.Keys == r.Keys;
    forall e | e in l ensures l[e] == r[e] {
      assert TagsOf(l, e) == TagsOf(r, e);
    }
  }

  /**
   * No removal record is kept: merging a replica that still holds a removed
   * element brings it back.
   */
  lemma MergeRestoresRemoved<T>(a: Entries<T>, b: Entries<T>, e: T)
    requires e in b
    ensures e in Union(a - {e}, b)
  {
  }

  /** The test of lines 79-96: two adds give two tags, and a remove makes the element absent. */
  lemma AddRemoveTest()
    ensures var s := WithTag(WithTag(map[], "item1", ("node1", Timestamp(100, 0))), "item1", ("node2", Timestamp(200, 0)));
            "item1" in s && |TagsOf(s, "item1")| == 2 && "item1" !in s - {"item1"}
  {
    var t1: Tag, t2: Tag := ("node1", Timestamp(100, 0)), ("node2", Timestamp(200, 0));
    assert t1 != t2 by { assert t1.0[4] != t2.0[4]; }
    assert |{t1} + {t2}| == 2;
  }

  /** The test of lines 98-117: replicas adding different elements both hold both after a merge. */
  lemma MergeTest()
    ensures var s1 := WithTag(map[], "item1", ("node1", Timestamp(100, 0)));
            var s2 := WithTag(map[], "item2", ("node2", Timestamp(200, 0)));
            Union(s1, s2).Keys == {"item1", "item2"}
  {
  }

  /** `ORSet<T>`. */
  class ORSet<T(==)> {
    var entries: Entries<T>

    constructor ()
      ensures entries == map[]
    {
      entries := map[];
    }

    /** `add(element, actor, timestamp)`. */
    method Add(e: T, actor: ActorId, timestamp: Timestamp)
      modifies this
      ensures entries == WithTag(old(entries), e, (actor, timestamp))
    {
      var tags := if e in entries then entries[e] else {};
      entries := entries[e := tags + {(actor, timestamp)}];
    }

    /** `remove(element)`. */
    method Remove(e: T)
      modifies this
      ensures entries == old(entries) - {e}
    {
      entries := entries - {e};
    }

    /** `contains(element)`. */
    predicate Contains(e: T)
      reads this
    {
      e in entries
    }

    /** `elements()`: the present elements, each once, in an arbitrary order. */
    method Elements() returns (r: seq<T>)
      ensures forall e :: e in r <==> e in entries
      ensures |r| == |entries.Keys|
    {
      r := [];
      var pending := entries.Keys;
      while pending != {}
        invariant pending <= entries.Keys
        invariant forall e :: e in r <==> e in entries.Keys - pending
        invariant |r| + |pending| == |entries.Keys|
        decreases pending
      {
        var e :| e in pending;
        r := r + [e];
        pending := pending - {e};
      }
    }

    /** `tags(element)`: absent exactly for an element not in the set. */
    function Tags(e: T): (r: Option<set<Tag>>)
      reads this
      ensures r.None? <==> !Contains(e)
      ensures r.Some? ==> r.value == TagsOf(entries, e)
    {
      if e in entries then Some(entries[e]) else None
    }

    /** `merge(other)`: extend each element's tags with the other's. */
    method Merge(other: ORSet<T>)
      modifies this
      ensures entries == Union(old(entries), old(other.entries))
    {
      var theirs := other.entries;
      ghost var mine := entries;
      var pending := theirs.Keys;
      while pending != {}
        invariant pending <= theirs.Keys
        invariant entries.Keys == mine.Keys + (theirs.Keys - pending)
        invariant forall e :: e in entries ==>
                    entries[e] == if e in theirs.Keys - pending then TagsOf(mine, e) + theirs[e] else mine[e]
        decreases pending
      {
        var e :| e in pending;
        var tags := if e in entries then entries[e] else {};
        entries := entries[e := tags + theirs[e]];
        pending := pending - {e};
      }
      forall e | e in entries ensures entries[e] == Union(mine, theirs)[e] {
        UnionEffect(mine, theirs, e);
      }
      assert entries.Keys == Union(mine, theirs).Keys;
    }
  }
}
