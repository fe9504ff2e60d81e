/**
 * The multi-value register of src/rhc/crdt/mv_register.rs: a set of
 * versioned values, each naming the (actor, timestamp) keys it supersedes.
 */
module MvRegister {
  import opened Hlc
  import opened CrdtBase

  /** The identity of a write: `(actor, timestamp)`. */
  type Key = (ActorId, Timestamp)

  /** `Version`. */
  datatype Version = Version(actor: ActorId, timestamp: Timestamp, supersedes: set<Key>)

  /** `VersionedValue<T>`. */
  datatype VersionedValue<T> = VersionedValue(value: T, version: Version)

  function KeyOf<T(==)>(v: VersionedValue<T>): Key
  {
    (v.version.actor, v.version.timestamp)
  }

  /** The keys of all values held. */
  function Keys<T(==)>(values: set<VersionedValue<T>>): set<Key>
  {
    set v | v in values :: KeyOf(v)
  }

  /** The contents after `set(value, actor, timestamp)` (lines 51-70). */
  function AfterSet<T(==)>(values: set<VersionedValue<T>>, value: T, actor: ActorId, timestamp: Timestamp): set<VersionedValue<T>>
  {
    {VersionedValue(value, Version(actor, timestamp, Keys(values)))}
  }

  /** `w` is a different value whose version lists the key of `v` (lines 98-102). */
  predicate SupersededBy<T(==)>(v: VersionedValue<T>, w: VersionedValue<T>)
  {
    w != v && KeyOf(v) in w.version.supersedes
  }

  predicate Superseded<T(==)>(v: VersionedValue<T>, all: set<VersionedValue<T>>)
  {
    exists w :: w in all && SupersededBy(v, w)
  }

  /** The contents after `merge` (lines 89-108): the union less every superseded value. */
  function Merged<T(==)>(a: set<VersionedValue<T>>, b: set<VersionedValue<T>>): set<VersionedValue<T>>
  {
    set v | v in a + b && !Superseded(v, a + b)
  }

  /** No value held is superseded by another value held. */
  predicate Antichain<T(==)>(values: set<VersionedValue<T>>)
  {
    forall v, w :: v in values && w in values ==> !SupersededBy(v, w)
  }

  /**
   * `set` leaves exactly the new value, and that value supersedes every key
   * held before.
   */
  lemma SetEffect<T>(values: set<VersionedValue<T>>, value: T, actor: ActorId, timestamp: Timestamp)
    ensures var r := AfterSet(values, value, actor, timestamp);
            |r| == 1 && Antichain(r) &&
            forall v :: v in r ==> v.value == value && KeyOf(v) == (actor, timestamp) &&
                                   forall u :: u in values ==> KeyOf(u) in v.version.supersedes
  {
  }

  /** A value survives a merge iff it is on either side and no other value on either side supersedes it. */
  lemma MergedMembership<T>(a: set<VersionedValue<T>>, b: set<VersionedValue<T>>, v: VersionedValue<T>)
    ensures v in Merged(a, b) <==> (v in a || v in b) && forall w :: w in a + b ==> !SupersededBy(v, w)
  {
  }

  /** Merge is commutative, and its result is an antichain. */
  lemma MergedCommutativeAntichain<T>(a: set<VersionedValue<T>>, b: set<VersionedValue<T>>)
    ensures Merged(a, b) == Merged(b, a)
    ensures Antichain(Merged(a, b))
  {
    assert a + b == b + a;
  }

  /** Merging an antichain with itself changes nothing. */
  lemma MergedIdempotent<T>(a: set<VersionedValue<T>>)
    requires Antichain(a)
    ensures Merged(a, a) == a
  {
    assert a + a == a;
  }

  /**
   * A write with a key never seen before wins against the replica it was
   * made on: merging either way round leaves only the new value.
   */
  lemma NewWriteSupersedesOld<T>(values: set<VersionedValue<T>>, value: T, actor: ActorId, timestamp: Timestamp)
    requires (actor, timestamp) !in Keys(values)
    requires forall u :: u in values ==> (actor, timestamp) !in u.version.supersedes
    ensures Merged(AfterSet(values, value, actor, timestamp), values) == AfterSet(values, value, actor, timestamp)
    ensures Merged(values, AfterSet(values, value, actor, timestamp)) == AfterSet(values, value, actor, timestamp)
  {
    var n := VersionedValue(value, Version(actor, timestamp, Keys(values)));
    var all := {n} + values;
    forall u | u in values ensures Superseded(u, all) {
      assert KeyOf(u) in Keys(values);
      assert SupersededBy(u, n);
    }
    assert !Superseded(n, all) by {
      forall w | w in all ensures !SupersededBy(n, w) {
        if w != n {
          assert w in values;
        }
      }
    }
    assert Merged(AfterSet(values, value, actor, timestamp), values) == {n};
    assert values + {n} == all;
  }

  /**
   * The concurrency test (lines 126-144): two first writes on different
   * replicas both survive a merge.
   */
  lemma ConcurrentTest()
    ensures var r1 := AfterSet({}, "value1", "node1", Timestamp(100, 0));
            var r2 := AfterSet({}, "value2", "node2", Timestamp(100, 1));
            var m := Merged(r1, r2);
            |m| == 2 && (exists v :: v in m && v.value == "value1") && (exists v :: v in m && v.value == "value2")
  {
    var v1 := VersionedValue("value1", Version("node1", Timestamp(100, 0), {}));
    var v2 := VersionedValue("value2", Version("node2", Timestamp(100, 1), {}));
    assert Keys<string>({}) == {};
    assert v1 != v2 by { assert v1.value[5] != v2.value[5]; }
    assert Merged({v1}, {v2}) == {v1, v2};
  }

  /** The superseding test (lines 146-160): a second write leaves a single value, the second one. */
  lemma SupersedingTest()
    ensures var r := AfterSet(AfterSet({}, "v1", "node1", Timestamp(100, 0)), "v2", "node1", Timestamp(200, 0));
            |r| == 1 && forall v :: v in r ==> v.value == "v2"
  {
  }

  /** `MVRegister<T>`. */
  class MVRegister<T(==)> {
    var values: set<VersionedValue<T>>

    constructor ()
      ensures values == {}
    {
      values := {};
    }

    /** `set(value, actor, timestamp)`: supersede every key held, then hold only the new value. */
    method Set(value: T, actor: ActorId, timestamp: Timestamp)
      modifies this
      ensures values == AfterSet(old(values), value, actor, timestamp)
    {
      var supersedes: set<Key> := {};
      var pending := values;
      while pending != {}
        invariant pending <= values
        invariant supersedes == Keys(values - pending)
        decreases pending
      {
        var v :| v in pending;
        supersedes := supersedes + {KeyOf(v)};
        pending := pending - {v};
      }
      assert values - pending == values;
      values := {VersionedValue(value, Version(actor, timestamp, supersedes))};
    }

    /** `get()`: the value of each version held, in an arbitrary order. */
    method Get() returns (r: seq<T>)
      ensures |r| == |values|
      ensures forall x :: x in r <==> exists v :: v in values && v.value == x
    {
      r := [];
      var pending := values;
      while pending != {}
        invariant pending <= values
        invariant |r| + |pending| == |values|
        invariant forall x :: x in r <==> exists v :: v in values - pending && v.value == x
        decreases pending
      {
        var v :| v in pending;
        r := r + [v.value];
        pending := pending - {v};
      }
    }

    /** `get_versioned()`: every version held, once each. */
    method GetVersioned() returns (r: seq<VersionedValue<T>>)
      ensures |r| == |values|
      ensures forall v :: v in r <==> v in values
    {
      r := [];
      var pending := values;
      while pending != {}
        invariant pending <= values
        invariant |r| + |pending| == |values|
        invariant forall v :: v in r <==> v in values - pending
        decreases pending
      {
        var v :| v in pending;
        r := r + [v];
        pending := pending - {v};
      }
    }

    /** `is_empty()`. */
    predicate IsEmpty()
      reads this
    {
      values == {}
    }

    /** `merge(other)`: the nested scan for superseded values over the union. */
    method Merge(other: MVRegister<T>)
      modifies this
      ensures values == Merged(old(values), old(other.values))
    {
      var all := values + other.values;
      var toRemove: set<VersionedValue<T>> := {};
      var outer := all;
      while outer != {}
        invariant outer <= all
        invariant forall v :: v in toRemove <==> v in all - outer && Superseded(v, all)
        decreases outer
      {
        var v1 :| v1 in outer;
        var inner := all;
        while inner != {}
          invariant inner <= all
          invariant forall v :: v in toRemove <==>
                      (v in all - outer && Superseded(v, all)) ||
                      (v == v1 && exists w :: w in all - inner && SupersededBy(v1, w))
          decreases inner
        {
          var v2 :| v2 in inner;
          if v1 != v2 && KeyOf(v1) in v2.version.supersedes {
            toRemove := toRemove + {v1};
            assert SupersededBy(v1, v2);
          }
          inner := inner - {v2};
        }
        assert all - inner == all;
        outer := outer - {v1};
      }
      values := all - toRemove;
    }
  }
}
