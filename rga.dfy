/**
 * The replicated growable array of src/rhc/crdt/rga.rs: a map from element
 * ids to elements linked by `next` pointers from a virtual root.
 *
 * `to_vec` and `find_insert_position` follow `next` pointers until an id is
 * missing or a pointer is absent; nothing in the source bounds that walk.
 * `Walk` is that walk with a step budget, `Terminates` says some budget
 * suffices, and `Chain` is the list of ids it visits.
 */
module Rga {
  import opened Wrappers
  import opened Hlc
  import opened CrdtBase

  /** `ElementId`. */
  datatype ElementId = ElementId(actor: ActorId, timestamp: Timestamp)

  /** The derived `Ord` on `ElementId`: actor first, then timestamp. */
  predicate IdLess(a: ElementId, b: ElementId)
  {
    StringLess(a.actor, b.actor) || (a.actor == b.actor && Less(a.timestamp, b.timestamp))
  }

  /** `IdLess` is a strict total order. */
  lemma IdLessIsStrictTotal(a: ElementId, b: ElementId, c: ElementId)
    ensures !IdLess(a, a)
    ensures IdLess(a, b) ==> !IdLess(b, a)
    ensures IdLess(a, b) && IdLess(b, c) ==> IdLess(a, c)
    ensures IdLess(a, b) || a == b || IdLess(b, a)
  {
    StringLessIsStrictTotal(a.actor, b.actor, c.actor);
    StringLessIsStrictTotal(b.actor, a.actor, c.actor);
    OrderIsStrictTotal(a.timestamp, b.timestamp, c.timestamp);
  }

  /** `Element<T>`: `value` is `None` for the root and for deleted elements. */
  datatype Element<T> = Element(value: Option<T>, prev: ElementId, next: Option<ElementId>, deleted: bool)

  type Elements<T> = map<ElementId, Element<T>>

  /** A walk stops at `id`: it has no successor, or its successor is not stored. */
  predicate Stops<T>(elems: Elements<T>, id: ElementId)
    requires id in elems
  {
    elems[id].next.None? || elems[id].next.value !in elems
  }

  /** `s` is a run of stored elements, each the `next` of the one before, ending where a walk stops. */
  predicate Links<T>(elems: Elements<T>, s: seq<ElementId>)
  {
    && |s| > 0
    && (forall i :: 0 <= i < |s| ==> s[i] in elems)
    && (forall i :: 0 <= i < |s| - 1 ==> elems[s[i]].next == Some(s[i + 1]))
    && Stops(elems, s[|s| - 1])
  }

  /** The ids a walk from `cur` visits, if it stops within `fuel` steps. */
  function Walk<T>(elems: Elements<T>, cur: Option<ElementId>, fuel: nat): (r: Option<seq<ElementId>>)
    ensures r.Some? ==> (r.value == [] <==> cur.None? || cur.value !in elems)
    ensures r.Some? && r.value != [] ==> r.value[0] == cur.value && Links(elems, r.value)
    decreases fuel
  {
    if cur.None? || cur.value !in elems then Some([])
    else if fuel == 0 then None
    else
      match Walk(elems, elems[cur.value].next, fuel - 1)
      case None => None
      case Some(rest) => Some([cur.value] + rest)
  }

  /** A larger budget does not change a walk that stops. */
  lemma {:induction false} WalkMonotone<T>(elems: Elements<T>, cur: Option<ElementId>, f: nat, g: nat)
    requires Walk(elems, cur, f).Some? && f <= g
    ensures Walk(elems, cur, g) == Walk(elems, cur, f)
    decreases f
  {
    if cur.Some? && cur.value in elems {
      WalkMonotone(elems, elems[cur.value].next, f - 1, g - 1);
    }
  }

  /** The walk from `cur` stops. */
  ghost predicate Terminates<T>(elems: Elements<T>, cur: Option<ElementId>)
  {
    exists fuel: nat :: Walk(elems, cur, fuel).Some?
  }

  /** The ids visited by the walk from `cur`. */
  ghost function Chain<T>(elems: Elements<T>, cur: Option<ElementId>): (r: seq<ElementId>)
    requires Terminates(elems, cur)
    ensures r == [] <==> cur.None? || cur.value !in elems
    ensures r != [] ==> r[0] == cur.value && Links(elems, r)
  {
    var fuel: nat :| Walk(elems, cur, fuel).Some?;
    Walk(elems, cur, fuel).value
  }

  /** Any budget that suffices gives the chain. */
  lemma ChainIs<T>(elems: Elements<T>, cur: Option<ElementId>, fuel: nat)
    requires Walk(elems, cur, fuel).Some?
    ensures Terminates(elems, cur) && Chain(elems, cur) == Walk(elems, cur, fuel).value
  {
    var f: nat :| Walk(elems, cur, f).Some? && Chain(elems, cur) == Walk(elems, cur, f).value;
    if f <= fuel {
      WalkMonotone(elems, cur, f, fuel);
    } else {
      WalkMonotone(elems, cur, fuel, f);
    }
  }

  /** A walk from the head of a linked run visits exactly that run. */
  lemma {:induction false} WalkAlongLinks<T>(elems: Elements<T>, s: seq<ElementId>)
    requires Links(elems, s)
    ensures Walk(elems, Some(s[0]), |s|) == Some(s)
    decreases |s|
  {
    if |s| > 1 {
      assert Links(elems, s[1..]);
      WalkAlongLinks(elems, s[1..]);
      assert [s[0]] + s[1..] == s;
    } else {
      assert [s[0]] + [] == s;
    }
  }

  /** The chain from the head of a linked run is that run. */
  lemma ChainOfLinks<T>(elems: Elements<T>, s: seq<ElementId>)
    requires Links(elems, s)
    ensures Terminates(elems, Some(s[0])) && Chain(elems, Some(s[0])) == s
  {
    WalkAlongLinks(elems, s);
    ChainIs(elems, Some(s[0]), |s|);
  }

  /** A run that stops never visits an id twice. */
  lemma LinksDistinct<T>(elems: Elements<T>, s: seq<ElementId>)
    requires Links(elems, s)
    ensures forall a, b :: 0 <= a < b < |s| ==> s[a] != s[b]
  {
    forall a, b | 0 <= a < b < |s| ensures s[a] != s[b] {
      assert Links(elems, s[a..]) && Links(elems, s[b..]);
      ChainOfLinks(elems, s[a..]);
      ChainOfLinks(elems, s[b..]);
    }
  }

  /** The values of the live elements of `s`, in order. */
  function Visible<T>(elems: Elements<T>, s: seq<ElementId>): seq<T>
    requires forall id :: id in s ==> id in elems
  {
    if s == [] then []
    else
      var e := elems[s[0]];
      (if e.value.Some? && !e.deleted then [e.value.value] else []) + Visible(elems, s[1..])
  }

  lemma {:induction false} VisibleConcat<T>(elems: Elements<T>, s: seq<ElementId>, t: seq<ElementId>)
    requires forall id :: id in s + t ==> id in elems
    ensures Visible(elems, s + t) == Visible(elems, s) + Visible(elems, t)
    decreases |s|
  {
    if s == [] {
      assert s + t == t;
    } else {
      assert (s + t)[0] == s[0];
      assert (s + t)[1..] == s[1..] + t;
      VisibleConcat(elems, s[1..], t);
    }
  }

  /** `Visible` reads only the values and deletion flags of the ids listed. */
  lemma {:induction false} VisibleSame<T>(e1: Elements<T>, e2: Elements<T>, s: seq<ElementId>)
    requires forall id :: id in s ==> id in e1 && id in e2 && e1[id].value == e2[id].value && e1[id].deleted == e2[id].deleted
    ensures Visible(e1, s) == Visible(e2, s)
    decreases |s|
  {
    if s != [] {
      VisibleSame(e1, e2, s[1..]);
    }
  }

  /** What `to_vec` returns: the live values along the chain from the root. */
  ghost function Contents<T>(elems: Elements<T>, root: ElementId): seq<T>
    requires Terminates(elems, Some(root))
  {
    Visible(elems, Chain(elems, Some(root)))
  }

  /** The elements of `RGA::new`: the root alone, with no value and no successor. */
  function NewElements<T>(root: ElementId): Elements<T>
  {
    map[root := Element(None, root, None, false)]
  }

  /** A new sequence is empty. */
  lemma NewIsEmpty<T>(root: ElementId)
    ensures Terminates(NewElements<T>(root), Some(root))
    ensures Chain(NewElements<T>(root), Some(root)) == [root]
    ensures Contents(NewElements<T>(root), root) == []
  {
    var e := NewElements<T>(root);
    ChainOfLinks(e, [root]);
    assert [root][1..] == [];
    assert Visible(e, [root]) == [] + Visible(e, []);
  }

  // ----- delete -----

  /** The elements after `delete(id)` (lines 82-87). */
  function WithDeleted<T>(elems: Elements<T>, id: ElementId): Elements<T>
  {
    if id in elems then elems[id := elems[id].(value := None, deleted := true)] else elems
  }

  /** A walk depends only on the stored ids and their `next` pointers. */
  lemma {:induction false} WalkSameLinks<T>(e1: Elements<T>, e2: Elements<T>, cur: Option<ElementId>, fuel: nat)
    requires e1.Keys == e2.Keys
    requires forall id :: id in e1 ==> e1[id].next == e2[id].next
    ensures Walk(e1, cur, fuel) == Walk(e2, cur, fuel)
    decreases fuel
  {
    if cur.Some? && cur.value in e1 && fuel > 0 {
      WalkSameLinks(e1, e2, e1[cur.value].next, fuel - 1);
    }
  }

  /** `Visible` taken apart around position `k`. */
  lemma VisibleAround<T>(elems: Elements<T>, s: seq<ElementId>, k: nat)
    requires forall id :: id in s ==> id in elems
    requires k < |s|
    ensures Visible(elems, s) == Visible(elems, s[..k]) + Visible(elems, [s[k]]) + Visible(elems, s[k + 1..])
  {
    assert s == s[..k] + [s[k]] + s[k + 1..];
    VisibleConcat(elems, s[..k] + [s[k]], s[k + 1..]);
    VisibleConcat(elems, s[..k], [s[k]]);
  }

  /** `delete` changes no `next` pointer, so the chain from the root is the same. */
  lemma DeleteKeepsChain<T>(elems: Elements<T>, root: ElementId, id: ElementId)
    requires Terminates(elems, Some(root))
    ensures Terminates(WithDeleted(elems, id), Some(root))
    ensures Chain(WithDeleted(elems, id), Some(root)) == Chain(elems, Some(root))
  {
    var d := WithDeleted(elems, id);
    var fuel: nat :| Walk(elems, Some(root), fuel).Some?;
    WalkSameLinks(elems, d, Some(root), fuel);
    ChainIs(elems, Some(root), fuel);
    ChainIs(d, Some(root), fuel);
  }

  /**
   * Deleting the `k`-th element of the chain drops its value, if any, from
   * `to_vec`; every other value stays where it was.
   */
  lemma DeleteEffect<T>(elems: Elements<T>, root: ElementId, k: nat)
    requires Terminates(elems, Some(root)) && k < |Chain(elems, Some(root))|
    ensures var c := Chain(elems, Some(root));
            && Terminates(WithDeleted(elems, c[k]), Some(root))
            && Contents(elems, root) == Visible(elems, c[..k]) + Visible(elems, [c[k]]) + Visible(elems, c[k + 1..])
            && Contents(WithDeleted(elems, c[k]), root) == Visible(elems, c[..k]) + Visible(elems, c[k + 1..])
  {
    var c := Chain(elems, Some(root));
    DeleteKeepsChain(elems, root, c[k]);
    VisibleAround(elems, c, k);
    VisibleDeleted(elems, c, k);
  }

  /** Deleting an id that is not on the chain leaves `to_vec` as it was. */
  lemma DeleteOffChain<T>(elems: Elements<T>, root: ElementId, id: ElementId)
    requires Terminates(elems, Some(root)) && id !in Chain(elems, Some(root))
    ensures Terminates(WithDeleted(elems, id), Some(root))
    ensures Contents(WithDeleted(elems, id), root) == Contents(elems, root)
  {
    DeleteKeepsChain(elems, root, id);
    VisibleSame(elems, WithDeleted(elems, id), Chain(elems, Some(root)));
  }

  lemma VisibleDeleted<T>(elems: Elements<T>, c: seq<ElementId>, k: nat)
    requires Links(elems, c) && k < |c|
    ensures Visible(WithDeleted(elems, c[k]), c) == Visible(elems, c[..k]) + Visible(elems, c[k + 1..])
  {
    var d := WithDeleted(elems, c[k]);
    LinksDistinct(elems, c);
    VisibleAround(d, c, k);
    assert [c[k]][1..] == [];
    assert Visible(d, [c[k]]) == [];
    assert c[k] !in c[..k] && c[k] !in c[k + 1..];
    VisibleSame(elems, d, c[..k]);
    VisibleSame(elems, d, c[k + 1..]);
  }

  // ----- find_insert_position and insert_after -----

  /** The successor of `id`, `None` when `id` is not stored. */
  function NextOf<T>(elems: Elements<T>, id: ElementId): Option<ElementId>
  {
    if id in elems then elems[id].next else None
  }

  /**
   * The walk of `find_insert_position` (lines 112-130) from `cur`: the first
   * stored id greater than `newId`, or `None` where the walk stops;
   * `None` as the outer result when `fuel` runs out first.
   */
  function FindFrom<T>(elems: Elements<T>, cur: Option<ElementId>, newId: ElementId, fuel: nat): Option<Option<ElementId>>
    decreases fuel
  {
    if cur.None? || cur.value !in elems then Some(None)
    else if IdLess(newId, cur.value) then Some(cur)
    else if fuel == 0 then None
    else FindFrom(elems, elems[cur.value].next, newId, fuel - 1)
  }

  lemma {:induction false} FindMonotone<T>(elems: Elements<T>, cur: Option<ElementId>, newId: ElementId, f: nat, g: nat)
    requires FindFrom(elems, cur, newId, f).Some? && f <= g
    ensures FindFrom(elems, cur, newId, g) == FindFrom(elems, cur, newId, f)
    decreases f
  {
    if cur.Some? && cur.value in elems && !IdLess(newId, cur.value) {
      FindMonotone(elems, elems[cur.value].next, newId, f - 1, g - 1);
    }
  }

  /** The `find_insert_position` loop stops. */
  ghost predicate FindEnds<T>(elems: Elements<T>, cur: Option<ElementId>, newId: ElementId)
  {
    exists fuel: nat :: FindFrom(elems, cur, newId, fuel).Some?
  }

  /** The first id of `s` greater than `newId`. */
  function FirstGreater(s: seq<ElementId>, newId: ElementId): (r: Option<ElementId>)
    ensures r.Some? ==> r.value in s && IdLess(newId, r.value)
  {
    if s == [] then None
    else if IdLess(newId, s[0]) then Some(s[0])
    else FirstGreater(s[1..], newId)
  }

  /**
   * Along a walk that stops, `find_insert_position` gives the first id
   * greater than the new one, or `None` when there is none.
   */
  lemma {:induction false} FindIsFirstGreater<T>(elems: Elements<T>, cur: Option<ElementId>, newId: ElementId, fuel: nat)
    requires Walk(elems, cur, fuel).Some?
    ensures FindFrom(elems, cur, newId, fuel) == Some(FirstGreater(Walk(elems, cur, fuel).value, newId))
    decreases fuel
  {
    if cur.Some? && cur.value in elems {
      var w := Walk(elems, cur, fuel).value;
      FindIsFirstGreater(elems, elems[cur.value].next, newId, fuel - 1);
      assert w[1..] == Walk(elems, elems[cur.value].next, fuel - 1).value;
    }
  }

  /**
   * The elements after `insert_after(prev_id, value, ...)` as written
   * (lines 50-79), where `next` is what `find_insert_position` found.
   */
  function InsertedAsWritten<T>(elems: Elements<T>, prevId: ElementId, newId: ElementId, v: T, next: Option<ElementId>): Elements<T>
  {
    var e1 := if prevId in elems && next.None? then elems[prevId := elems[prevId].(next := Some(newId))] else elems;
    var e2 := e1[newId := Element(Some(v), prevId, next, false)];
    if next.Some? && next.value in e2 then e2[next.value := e2[next.value].(prev := newId)] else e2
  }

  /**
   * When `find_insert_position` finds a successor, `insert_after` leaves
   * `prev.next` as it was: nothing links to the new element.
   */
  lemma AsWrittenFoundKeepsPrevNext<T>(elems: Elements<T>, prevId: ElementId, newId: ElementId, v: T, next: ElementId)
    requires prevId in elems && newId !in elems
    ensures var r := InsertedAsWritten(elems, prevId, newId, v, Some(next));
            r[prevId].next == elems[prevId].next
  {
  }

  /** The new element's id `n` is stored nowhere and no element points at it. */
  predicate Fresh<T>(elems: Elements<T>, n: ElementId)
  {
    n !in elems && forall id :: id in elems ==> elems[id].next != Some(n)
  }

  /**
   * The slot the corrected insertion picks in the walk `s` from `prev`: the
   * new element goes after `s[k]`, having passed only ids not greater than
   * it, and before the next id, which is greater.
   */
  predicate SlotAt(s: seq<ElementId>, k: int, n: ElementId)
  {
    && 0 <= k < |s|
    && (forall m :: 0 < m <= k ==> !IdLess(n, s[m]))
    && (k + 1 < |s| ==> IdLess(n, s[k + 1]))
  }

  /** The elements after linking a new element `n` holding `v` directly after `before`. */
  function Linked<T>(elems: Elements<T>, before: ElementId, n: ElementId, v: T): Elements<T>
    requires before in elems
  {
    var nx := elems[before].next;
    var e1 := elems[before := elems[before].(next := Some(n))][n := Element(Some(v), before, nx, false)];
    if nx.Some? && nx.value in e1 then e1[nx.value := e1[nx.value].(prev := n)] else e1
  }

  /** Linking changes only the two pointers it sets, and adds `n`. */
  lemma LinkedFacts<T>(elems: Elements<T>, before: ElementId, n: ElementId, v: T)
    requires before in elems && Fresh(elems, n)
    ensures var r := Linked(elems, before, n, v);
            && r.Keys == elems.Keys + {n}
            && r[before].next == Some(n)
            && r[n].next == elems[before].next && r[n].value == Some(v) && !r[n].deleted
            && forall id :: id in elems ==>
                 (r[id].value == elems[id].value && r[id].deleted == elems[id].deleted &&
                  (id != before ==> r[id].next == elems[id].next))
  {
  }

  /** Linking after `s[k]` splices `n` into a linked run right there. */
  lemma LinkedSplices<T>(elems: Elements<T>, s: seq<ElementId>, k: nat, n: ElementId, v: T)
    requires Links(elems, s) && k < |s| && Fresh(elems, n)
    ensures Links(Linked(elems, s[k], n, v), s[..k + 1] + [n] + s[k + 1..])
  {
    var r := Linked(elems, s[k], n, v);
    var t := s[..k + 1] + [n] + s[k + 1..];
    LinkedFacts(elems, s[k], n, v);
    LinksDistinct(elems, s);
    assert |t| == |s| + 1;
    forall i | 0 <= i < |t| ensures t[i] in r {
      if i != k + 1 {
        assert t[i] == if i <= k then s[i] else s[i - 1];
      }
    }
    forall i | 0 <= i < |t| - 1 ensures r[t[i]].next == Some(t[i + 1]) {
      if i < k {
        assert t[i] == s[i] && t[i + 1] == s[i + 1] && s[i] != s[k];
      } else if i == k {
        assert t[i] == s[k] && t[i + 1] == n;
      } else if i == k + 1 {
        assert t[i] == n && t[i + 1] == s[k + 1];
      } else {
        assert t[i] == s[i - 1] && t[i + 1] == s[i] && s[i - 1] != s[k];
      }
    }
    if k + 1 < |s| {
      assert t[|t| - 1] == s[|s| - 1] && s[|s| - 1] != s[k];
    } else {
      assert t[|t| - 1] == n;
    }
  }

  /** The walk from an element on a chain is the rest of that chain. */
  lemma ChainSuffix<T>(elems: Elements<T>, cur: Option<ElementId>, i: nat)
    requires Terminates(elems, cur) && i < |Chain(elems, cur)|
    ensures Terminates(elems, Some(Chain(elems, cur)[i]))
    ensures Chain(elems, Some(Chain(elems, cur)[i])) == Chain(elems, cur)[i..]
  {
    var c := Chain(elems, cur);
    assert Links(elems, c[i..]) && c[i..][0] == c[i];
    ChainOfLinks(elems, c[i..]);
  }

  /**
   * The corrected insertion loses nothing: linking a fresh element after
   * the `j`-th element of the root chain `c` yields the old chain with the
   * new id spliced in right there, and `to_vec` yields the old values with
   * `v` spliced in at the matching place.
   */
  lemma InsertKeepsEverything<T>(elems: Elements<T>, root: ElementId, j: nat, n: ElementId, v: T)
    requires Terminates(elems, Some(root)) && j < |Chain(elems, Some(root))|
    requires Fresh(elems, n)
    ensures var c := Chain(elems, Some(root));
            Contents(elems, root) == Visible(elems, c[..j + 1]) + Visible(elems, c[j + 1..])
    ensures var c := Chain(elems, Some(root));
            var e' := Linked(elems, c[j], n, v);
            && Terminates(e', Some(root))
            && Chain(e', Some(root)) == c[..j + 1] + [n] + c[j + 1..]
            && Contents(e', root) == Visible(elems, c[..j + 1]) + [v] + Visible(elems, c[j + 1..])
  {
    var c := Chain(elems, Some(root));
    assert c == c[..j + 1] + c[j + 1..];
    SpliceRun(elems, c, j, n, v);
    VisibleConcat(elems, c[..j + 1], c[j + 1..]);
  }

  /** Splicing `n` into a linked run after position `j`: the run from its head, and its live values. */
  lemma SpliceRun<T>(elems: Elements<T>, s: seq<ElementId>, j: nat, n: ElementId, v: T)
    requires Links(elems, s) && j < |s| && Fresh(elems, n)
    ensures var e' := Linked(elems, s[j], n, v);
            var t := s[..j + 1] + [n] + s[j + 1..];
            && Terminates(e', Some(s[0]))
            && Chain(e', Some(s[0])) == t
            && Visible(e', t) == Visible(elems, s[..j + 1]) + [v] + Visible(elems, s[j + 1..])
  {
    var e' := Linked(elems, s[j], n, v);
    var t := s[..j + 1] + [n] + s[j + 1..];
    LinkedSplices(elems, s, j, n, v);
    assert t[0] == s[0];
    ChainOfLinks(e', t);
    LinkedVisible(elems, s, j, n, v);
  }

  /** The live values of a run, before and after splicing in `n`. */
  lemma LinkedVisible<T>(elems: Elements<T>, s: seq<ElementId>, j: nat, n: ElementId, v: T)
    requires Links(elems, s) && j < |s| && Fresh(elems, n)
    ensures var e' := Linked(elems, s[j], n, v);
            && (forall id :: id in s[..j + 1] + [n] + s[j + 1..] ==> id in e')
            && Visible(e', s[..j + 1] + [n] + s[j + 1..]) == Visible(elems, s[..j + 1]) + [v] + Visible(elems, s[j + 1..])
  {
    var e' := Linked(elems, s[j], n, v);
    LinkedFacts(elems, s[j], n, v);
    VisibleConcat(e', s[..j + 1] + [n], s[j + 1..]);
    VisibleConcat(e', s[..j + 1], [n]);
    assert [n][1..] == [];
    assert Visible(e', [n]) == [v] + Visible(e', []);
    VisibleSame(elems, e', s[..j + 1]);
    VisibleSame(elems, e', s[j + 1..]);
  }

  /** Inserting after the last element appends its value to `to_vec`. */
  lemma AppendAtTail<T>(elems: Elements<T>, root: ElementId, n: ElementId, v: T)
    requires Terminates(elems, Some(root)) && root in elems && Fresh(elems, n)
    ensures var c := Chain(elems, Some(root));
            var e' := Linked(elems, c[|c| - 1], n, v);
            && Terminates(e', Some(root))
            && Chain(e', Some(root)) == c + [n]
            && Contents(e', root) == Contents(elems, root) + [v]
  {
    var c := Chain(elems, Some(root));
    assert c[|c| - 1..] == [c[|c| - 1]];
    InsertKeepsEverything(elems, root, |c| - 1, n, v);
    assert c[..|c|] == c && c[|c|..] == [];
    assert Visible(elems, c[|c|..]) == [];
  }

  /** Every successor pointer names a stored element. */
  predicate Closed<T>(elems: Elements<T>)
  {
    forall id :: id in elems ==> elems[id].next.None? || elems[id].next.value in elems
  }

  /** Linking keeps every successor pointer on a stored element. */
  lemma LinkedClosed<T>(elems: Elements<T>, before: ElementId, n: ElementId, v: T)
    requires before in elems && Closed(elems)
    ensures Closed(Linked(elems, before, n, v)) && Linked(elems, before, n, v).Keys == elems.Keys + {n}
  {
  }

  /**
   * The store after typing `text` into a new sequence: each character is
   * inserted after the one before it, under the matching id of `ids`.
   */
  function Typed<T>(root: ElementId, ids: seq<ElementId>, text: seq<T>): (r: Elements<T>)
    requires |ids| == |text|
    ensures forall id :: id in r <==> id == root || id in ids
    decreases |ids|
  {
    if ids == [] then NewElements(root)
    else
      var before := if |ids| == 1 then root else ids[|ids| - 2];
      Linked(Typed(root, ids[..|ids| - 1], text[..|text| - 1]), before, ids[|ids| - 1], text[|text| - 1])
  }

  /** Typing keeps every successor pointer on a stored element. */
  lemma {:induction false} TypedClosed<T>(root: ElementId, ids: seq<ElementId>, text: seq<T>)
    requires |ids| == |text|
    ensures Closed(Typed(root, ids, text))
    decreases |ids|
  {
    if ids != [] {
      var ids', text' := ids[..|ids| - 1], text[..|text| - 1];
      var before := if |ids| == 1 then root else ids[|ids| - 2];
      TypedClosed(root, ids', text');
      assert before in Typed(root, ids', text');
      LinkedClosed(Typed(root, ids', text'), before, ids[|ids| - 1], text[|text| - 1]);
    }
  }

  /** Ids typed once each: the next id to type is fresh in the store typed so far. */
  lemma TypedFresh<T>(root: ElementId, ids: seq<ElementId>, text: seq<T>)
    requires |ids| == |text| && ids != []
    requires root !in ids && forall a, b :: 0 <= a < b < |ids| ==> ids[a] != ids[b]
    ensures Fresh(Typed(root, ids[..|ids| - 1], text[..|text| - 1]), ids[|ids| - 1])
  {
    TypedClosed(root, ids[..|ids| - 1], text[..|text| - 1]);
    assert ids[|ids| - 1] !in ids[..|ids| - 1];
  }

  /** An id not yet typed is fresh in the typed store. */
  lemma TypedFreshFor<T>(root: ElementId, ids: seq<ElementId>, text: seq<T>, n: ElementId)
    requires |ids| == |text| && n != root && n !in ids
    ensures Fresh(Typed(root, ids, text), n)
  {
    TypedClosed(root, ids, text);
  }

  /**
   * Appending after the current tail each time chains the ids in the order
   * they were typed, and `to_vec` yields the typed text.
   */
  lemma {:induction false} TypingAppends<T>(root: ElementId, ids: seq<ElementId>, text: seq<T>)
    requires |ids| == |text|
    requires root !in ids && forall a, b :: 0 <= a < b < |ids| ==> ids[a] != ids[b]
    ensures Terminates(Typed(root, ids, text), Some(root))
    ensures Chain(Typed(root, ids, text), Some(root)) == [root] + ids
    ensures Contents(Typed(root, ids, text), root) == text
    decreases |ids|
  {
    if ids == [] {
      NewIsEmpty<T>(root);
      assert [root] + ids == [root];
    } else {
      var ids', text' := ids[..|ids| - 1], text[..|text| - 1];
      var c := [root] + ids';
      assert text' + [text[|text| - 1]] == text;
      assert c + [ids[|ids| - 1]] == [root] + ids;
      assert c[|c| - 1] == if |ids| == 1 then root else ids[|ids| - 2];
      TypedFresh(root, ids, text);
      TypingAppends(root, ids', text');
      AppendAtTail(Typed(root, ids', text'), root, ids[|ids| - 1], text[|text| - 1]);
    }
  }

  /** `ids[j]` holds the live value `text[j]`, for each `j`; the root holds no value. */
  ghost predicate Live<T>(elems: Elements<T>, root: ElementId, ids: seq<ElementId>, text: seq<T>)
    requires |ids| == |text|
  {
    && root in elems && elems[root].value.None?
    && forall j :: 0 <= j < |ids| ==> ids[j] in elems && elems[ids[j]].value == Some(text[j]) && !elems[ids[j]].deleted
  }

  /** The typed store holds each character under its id, none of them deleted, and no value at the root. */
  lemma {:induction false} TypedLive<T>(root: ElementId, ids: seq<ElementId>, text: seq<T>)
    requires |ids| == |text|
    requires root !in ids && forall a, b :: 0 <= a < b < |ids| ==> ids[a] != ids[b]
    ensures Live(Typed(root, ids, text), root, ids, text)
    decreases |ids|
  {
    if ids != [] {
      var ids', text' := ids[..|ids| - 1], text[..|text| - 1];
      var e' := Typed(root, ids', text');
      var before := if |ids| == 1 then root else ids[|ids| - 2];
      TypedLive(root, ids', text');
      TypedFresh(root, ids, text);
      assert before in e';
      LinkedFacts(e', before, ids[|ids| - 1], text[|text| - 1]);
      forall j | 0 <= j < |ids| - 1 ensures ids[j] == ids'[j] && text[j] == text'[j] {
      }
    }
  }

  /** A run of live elements shows exactly their values. */
  lemma {:induction false} VisibleLive<T>(elems: Elements<T>, s: seq<ElementId>, t: seq<T>)
    requires |s| == |t|
    requires forall j :: 0 <= j < |s| ==> s[j] in elems && elems[s[j]].value == Some(t[j]) && !elems[s[j]].deleted
    ensures Visible(elems, s) == t
    decreases |s|
  {
    if s != [] {
      VisibleLive(elems, s[1..], t[1..]);
      assert t == [t[0]] + t[1..];
    }
  }

  /** In a live store, a stretch of ids shows the matching stretch of text, with or without the root before it. */
  lemma LiveStretch<T>(elems: Elements<T>, root: ElementId, ids: seq<ElementId>, text: seq<T>, lo: nat, hi: nat)
    requires |ids| == |text| && Live(elems, root, ids, text) && lo <= hi <= |ids|
    ensures Visible(elems, ids[lo..hi]) == text[lo..hi]
    ensures Visible(elems, [root] + ids[lo..hi]) == text[lo..hi]
  {
    VisibleLive(elems, ids[lo..hi], text[lo..hi]);
    VisibleConcat(elems, [root], ids[lo..hi]);
    assert Visible(elems, [root]) == [] + Visible(elems, []);
  }

  /** Deleting `ids[j]` from a live store chained as `[root] + ids` removes exactly `text[j]`. */
  lemma DeleteFromLive<T>(elems: Elements<T>, root: ElementId, ids: seq<ElementId>, text: seq<T>, j: nat)
    requires |ids| == |text| && j < |ids| && Live(elems, root, ids, text)
    requires Terminates(elems, Some(root)) && Chain(elems, Some(root)) == [root] + ids
    ensures Terminates(WithDeleted(elems, ids[j]), Some(root))
    ensures Contents(WithDeleted(elems, ids[j]), root) == text[..j] + text[j + 1..]
  {
    var c := [root] + ids;
    assert c[j + 1] == ids[j];
    assert c[..j + 1] == [root] + ids[0..j] && c[j + 2..] == ids[j + 1..|ids|];
    assert text[..j] == text[0..j] && text[j + 1..] == text[j + 1..|text|];
    LiveStretch(elems, root, ids, text, 0, j);
    LiveStretch(elems, root, ids, text, j + 1, |ids|);
    DeleteEffect(elems, root, j + 1);
  }

  /** Deleting the `j`-th typed character removes exactly it from `to_vec`. */
  lemma TypedDelete<T>(root: ElementId, ids: seq<ElementId>, text: seq<T>, j: nat)
    requires |ids| == |text| && j < |ids|
    requires root !in ids && forall a, b :: 0 <= a < b < |ids| ==> ids[a] != ids[b]
    ensures Terminates(WithDeleted(Typed(root, ids, text), ids[j]), Some(root))
    ensures Contents(WithDeleted(Typed(root, ids, text), ids[j]), root) == text[..j] + text[j + 1..]
  {
    TypingAppends(root, ids, text);
    TypedLive(root, ids, text);
    DeleteFromLive(Typed(root, ids, text), root, ids, text, j);
  }

  // ----- what the source does, against what it means -----

  /** The links `insert_after` as written sets when nothing was found. */
  lemma AsWrittenNoneFacts<T>(elems: Elements<T>, prevId: ElementId, n: ElementId, v: T)
    requires prevId in elems && Fresh(elems, n)
    ensures var r := InsertedAsWritten(elems, prevId, n, v, None);
            && r.Keys == elems.Keys + {n}
            && r[prevId].next == Some(n)
            && r[n].next == None && r[n].value == Some(v) && !r[n].deleted
            && forall id :: id in elems ==>
                 (r[id].value == elems[id].value && r[id].deleted == elems[id].deleted &&
                  (id != prevId ==> r[id].next == elems[id].next))
  {
  }

  /**
   * From `c[i]` on a linked run, `find_insert_position` gives the first id
   * after `c[i]` that is greater than the new one, or `None` when there is none.
   */
  lemma AsWrittenFinds<T>(elems: Elements<T>, c: seq<ElementId>, i: nat, n: ElementId)
    requires Links(elems, c) && i < |c|
    ensures FindFrom(elems, NextOf(elems, c[i]), n, |c|) == Some(FirstGreater(c[i + 1..], n))
  {
    if i + 1 < |c| {
      assert Links(elems, c[i + 1..]) && NextOf(elems, c[i]) == Some(c[i + 1..][0]);
      WalkAlongLinks(elems, c[i + 1..]);
      FindIsFirstGreater(elems, NextOf(elems, c[i]), n, |c| - i - 1);
      FindMonotone(elems, NextOf(elems, c[i]), n, |c| - i - 1, |c|);
    } else {
      assert c[i + 1..] == [];
    }
  }

  /** As written, with nothing found: the run is cut after `c[i]` and ends at the new element. */
  lemma AsWrittenCutLinks<T>(elems: Elements<T>, c: seq<ElementId>, i: nat, n: ElementId, v: T)
    requires Links(elems, c) && i < |c| && Fresh(elems, n)
    ensures Links(InsertedAsWritten(elems, c[i], n, v, None), c[..i + 1] + [n])
  {
    var w := InsertedAsWritten(elems, c[i], n, v, None);
    var t := c[..i + 1] + [n];
    AsWrittenNoneFacts(elems, c[i], n, v);
    LinksDistinct(elems, c);
    forall j | 0 <= j < |t| ensures t[j] in w {
      if j <= i {
        assert t[j] == c[j];
      }
    }
    forall j | 0 <= j < |t| - 1 ensures w[t[j]].next == Some(t[j + 1]) {
      if j < i {
        assert t[j] == c[j] && t[j + 1] == c[j + 1] && c[j] != c[i];
      } else {
        assert t[j] == c[i] && t[j + 1] == n;
      }
    }
    assert t[|t| - 1] == n;
  }

  /** As written, with nothing found: the live values of the cut run. */
  lemma AsWrittenCutVisible<T>(elems: Elements<T>, c: seq<ElementId>, i: nat, n: ElementId, v: T)
    requires Links(elems, c) && i < |c| && Fresh(elems, n)
    ensures var w := InsertedAsWritten(elems, c[i], n, v, None);
            && (forall id :: id in c[..i + 1] + [n] ==> id in w)
            && Visible(w, c[..i + 1] + [n]) == Visible(elems, c[..i + 1]) + [v]
  {
    var w := InsertedAsWritten(elems, c[i], n, v, None);
    AsWrittenNoneFacts(elems, c[i], n, v);
    VisibleConcat(w, c[..i + 1], [n]);
    assert [n][1..] == [];
    assert Visible(w, [n]) == [v] + Visible(w, []);
    VisibleSame(elems, w, c[..i + 1]);
  }

  /**
   * `insert_after` as written, when no later id on the chain is greater
   * than the new one: `find_insert_position` gives `None`, `prev.next` is
   * pointed at the new element, and everything after `prev` is cut off.
   */
  lemma AsWrittenTruncates<T>(elems: Elements<T>, root: ElementId, i: nat, n: ElementId, v: T)
    requires Terminates(elems, Some(root)) && i < |Chain(elems, Some(root))|
    requires FirstGreater(Chain(elems, Some(root))[i + 1..], n) == None
    requires Fresh(elems, n)
    ensures var c := Chain(elems, Some(root));
            FindFrom(elems, NextOf(elems, c[i]), n, |c|) == Some(None)
    ensures var c := Chain(elems, Some(root));
            var w := InsertedAsWritten(elems, c[i], n, v, None);
            && Terminates(w, Some(root))
            && Chain(w, Some(root)) == c[..i + 1] + [n]
            && Contents(w, root) == Visible(elems, c[..i + 1]) + [v]
  {
    var c := Chain(elems, Some(root));
    var t := c[..i + 1] + [n];
    assert t[0] == root;
    AsWrittenFinds(elems, c, i, n);
    AsWrittenCutLinks(elems, c, i, n, v);
    ChainOfLinks(InsertedAsWritten(elems, c[i], n, v, None), t);
    AsWrittenCutVisible(elems, c, i, n, v);
  }

  /** The links `insert_after` as written sets when a stored successor was found. */
  lemma AsWrittenSomeFacts<T>(elems: Elements<T>, prevId: ElementId, n: ElementId, v: T, next: ElementId)
    requires prevId in elems && next in elems && Fresh(elems, n)
    ensures var r := InsertedAsWritten(elems, prevId, n, v, Some(next));
            && r.Keys == elems.Keys + {n}
            && r[n].value == Some(v)
            && forall id :: id in elems ==>
                 r[id].value == elems[id].value && r[id].deleted == elems[id].deleted && r[id].next == elems[id].next
  {
  }

  /** As written, with a successor found: every stored element keeps its successor, so a linked run stays linked. */
  lemma AsWrittenSomeLinks<T>(elems: Elements<T>, c: seq<ElementId>, i: nat, n: ElementId, v: T, next: ElementId)
    requires Links(elems, c) && i < |c| && next in c && Fresh(elems, n)
    ensures Links(InsertedAsWritten(elems, c[i], n, v, Some(next)), c)
  {
    var w := InsertedAsWritten(elems, c[i], n, v, Some(next));
    AsWrittenSomeFacts(elems, c[i], n, v, next);
    assert n !in c;
    assert forall j :: 0 <= j < |c| ==> c[j] in w && w[c[j]].next == elems[c[j]].next;
  }

  /**
   * `insert_after` as written, when `find_insert_position` finds a
   * successor: the new element is stored but nothing on the chain points at
   * it, so the chain and `to_vec` are unchanged.
   */
  lemma AsWrittenHides<T>(elems: Elements<T>, root: ElementId, i: nat, n: ElementId, v: T, next: ElementId)
    requires Terminates(elems, Some(root)) && i < |Chain(elems, Some(root))|
    requires FirstGreater(Chain(elems, Some(root))[i + 1..], n) == Some(next)
    requires Fresh(elems, n)
    ensures var c := Chain(elems, Some(root));
            FindFrom(elems, NextOf(elems, c[i]), n, |c|) == Some(Some(next))
    ensures var w := InsertedAsWritten(elems, Chain(elems, Some(root))[i], n, v, Some(next));
            && n in w && w[n].value == Some(v)
            && Terminates(w, Some(root))
            && Chain(w, Some(root)) == Chain(elems, Some(root))
            && Contents(w, root) == Contents(elems, root)
  {
    var c := Chain(elems, Some(root));
    AsWrittenFinds(elems, c, i, n);
    assert next in c by {
      assert next in c[i + 1..];
    }
    AsWrittenSomeLinks(elems, c, i, n, v, next);
    var w := InsertedAsWritten(elems, c[i], n, v, Some(next));
    AsWrittenSomeFacts(elems, c[i], n, v, next);
    ChainOfLinks(w, c);
    VisibleSame(elems, w, c);
  }

  /**
   * `insert_after` as written on a live store chained as `[root] + ids`:
   * inserting after `ids[j]` an id that no later id exceeds keeps the text
   * up to `text[j]`, then the new value, and drops the rest.
   */
  lemma LiveAsWrittenTruncates<T>(elems: Elements<T>, root: ElementId, ids: seq<ElementId>, text: seq<T>, j: nat, n: ElementId, v: T)
    requires |ids| == |text| && j < |ids| && Live(elems, root, ids, text)
    requires Terminates(elems, Some(root)) && Chain(elems, Some(root)) == [root] + ids
    requires Fresh(elems, n) && FirstGreater(ids[j + 1..], n) == None
    ensures var w := InsertedAsWritten(elems, ids[j], n, v, None);
            Terminates(w, Some(root)) && Contents(w, root) == text[..j + 1] + [v]
  {
    var c := [root] + ids;
    assert c[j + 2..] == ids[j + 1..] && c[j + 1] == ids[j];
    assert c[..j + 2] == [root] + ids[0..j + 1] && text[..j + 1] == text[0..j + 1];
    LiveStretch(elems, root, ids, text, 0, j + 1);
    AsWrittenTruncates(elems, root, j + 1, n, v);
  }

  /**
   * `insert_after` as written on a store chained as `[root] + ids`: when a
   * later id exceeds the new one, the new element is stored and `to_vec`
   * is unchanged.
   */
  lemma ChainedAsWrittenHides<T>(elems: Elements<T>, root: ElementId, ids: seq<ElementId>, i: nat, n: ElementId, v: T, next: ElementId)
    requires i <= |ids|
    requires Terminates(elems, Some(root)) && Chain(elems, Some(root)) == [root] + ids
    requires Fresh(elems, n) && FirstGreater(ids[i..], n) == Some(next)
    ensures var w := InsertedAsWritten(elems, ([root] + ids)[i], n, v, Some(next));
            n in w && w[n].value == Some(v) && Terminates(w, Some(root)) && Contents(w, root) == Contents(elems, root)
  {
    assert ([root] + ids)[i + 1..] == ids[i..];
    AsWrittenHides(elems, root, i, n, v, next);
  }

  /**
   * The corrected insertion on a live store chained as `[root] + ids`:
   * linking `n` after `([root] + ids)[j]` puts `v` into the text at
   * position `j` and keeps every character.
   */
  lemma LiveCorrectedInsert<T>(elems: Elements<T>, root: ElementId, ids: seq<ElementId>, text: seq<T>, j: nat, n: ElementId, v: T)
    requires |ids| == |text| && j <= |ids| && Live(elems, root, ids, text)
    requires Terminates(elems, Some(root)) && Chain(elems, Some(root)) == [root] + ids
    requires Fresh(elems, n)
    ensures ([root] + ids)[j] in elems
    ensures var e' := Linked(elems, ([root] + ids)[j], n, v);
            Terminates(e', Some(root)) && Contents(e', root) == text[..j] + [v] + text[j..]
  {
    var c := [root] + ids;
    assert c[..j + 1] == [root] + ids[0..j] && c[j + 1..] == ids[j..|ids|];
    assert text[..j] == text[0..j] && text[j..] == text[j..|text|];
    LiveStretch(elems, root, ids, text, 0, j);
    LiveStretch(elems, root, ids, text, j, |ids|);
    InsertKeepsEverything(elems, root, j, n, v);
  }

  /**
   * The first finding made concrete: with the root followed by A and B,
   * inserting X (an id above B's) after A gives "AX": B is lost.
   */
  lemma InsertAsWrittenLosesSuccessor(e: Elements<char>, r: ElementId, a: ElementId, b: ElementId, x: ElementId)
    requires r != a && r != b && r != x && a != b && a != x && b != x
    requires IdLess(b, x)
    requires Live(e, r, [a, b], "AB") && Terminates(e, Some(r)) && Chain(e, Some(r)) == [r, a, b] && Fresh(e, x)
    ensures FindFrom(e, NextOf(e, a), x, 3) == Some(None)
    ensures var w := InsertedAsWritten(e, a, x, 'X', None);
            Terminates(w, Some(r)) && Contents(w, r) == "AX"
  {
    assert "AB"[..1] + ['X'] == "AX";
    assert [a, b][1..] == [b] && [a, b][0] == a;
    assert ([r, a, b])[1] == a;
    IdLessIsStrictTotal(b, x, b);
    assert FirstGreater([b], x) == None;
    AsWrittenTruncates(e, r, 1, x, 'X');
    LiveAsWrittenTruncates(e, r, [a, b], "AB", 0, x, 'X');
  }


  /**
   * The second finding made concrete: inserting Y (an id below A's) after
   * the root of "A" stores Y but leaves `to_vec` at "A".
   */
  lemma InsertAsWrittenHidesNew(r: ElementId, a: ElementId, y: ElementId)
    requires r != a && r != y && a != y
    requires IdLess(y, a)
    ensures var w := InsertedAsWritten(Typed(r, [a], "A"), r, y, 'Y', Some(a));
            y in w && w[y].value == Some('Y') && Terminates(w, Some(r)) && Contents(w, r) == "A"
  {
    assert [a][0..] == [a] && FirstGreater([a], y) == Some(a);
    assert ([r] + [a])[0] == r;
    TypingAppends(r, [a], "A");
    TypedFreshFor(r, [a], "A", y);
    ChainedAsWrittenHides(Typed(r, [a], "A"), r, [a], 0, y, 'Y', a);
  }

  /** The corrected insertion on the input of the first finding keeps B and places X after it: "ABX". */
  lemma CorrectedInsertKeepsSuccessor(e: Elements<char>, r: ElementId, a: ElementId, b: ElementId, x: ElementId)
    requires r != a && r != b && r != x && a != b && a != x && b != x
    requires IdLess(b, x)
    requires Live(e, r, [a, b], "AB") && Terminates(e, Some(r)) && Chain(e, Some(r)) == [r, a, b] && Fresh(e, x)
    ensures Terminates(e, Some(a))
    ensures Terminates(Inserted(e, a, x, 'X'), Some(r)) && Contents(Inserted(e, a, x, 'X'), r) == "ABX"
  {
    var c := [r, a, b];
    assert c[1] == a && c[1..] == [a, b] && ([r] + [a, b])[2] == b;
    ChainSuffix(e, Some(r), 1);
    IdLessIsStrictTotal(b, x, b);
    assert SlotAt([a, b], 1, x);
    InsertedIsLinked(e, a, 1, x, 'X');
    LiveCorrectedInsert(e, r, [a, b], "AB", 2, x, 'X');
    assert "AB"[..2] + ['X'] + "AB"[2..] == "ABX";
  }



  /** The test of lines 193-206: five appends at the tail read "Hello". */
  lemma HelloTest()
    ensures var r := ElementId("node1", Timestamp(0, 0));
            var ids := [ElementId("node1", Timestamp(100, 0)), ElementId("node1", Timestamp(200, 0)), ElementId("node1", Timestamp(300, 0)),
                        ElementId("node1", Timestamp(400, 0)), ElementId("node1", Timestamp(500, 0))];
            Terminates(Typed(r, ids, "Hello"), Some(r)) && Contents(Typed(r, ids, "Hello"), r) == "Hello"
  {
    var r := ElementId("node1", Timestamp(0, 0));
    var ids := [ElementId("node1", Timestamp(100, 0)), ElementId("node1", Timestamp(200, 0)), ElementId("node1", Timestamp(300, 0)),
                ElementId("node1", Timestamp(400, 0)), ElementId("node1", Timestamp(500, 0))];
    assert forall a, b :: 0 <= a < b < |ids| ==> ids[a].timestamp.physical < ids[b].timestamp.physical;
    TypingAppends(r, ids, "Hello");
  }

  /** The test of lines 208-221: deleting the middle of "ABC" leaves "AC". */
  lemma DeleteTest()
    ensures var r := ElementId("node1", Timestamp(0, 0));
            var ids := [ElementId("node1", Timestamp(100, 0)), ElementId("node1", Timestamp(200, 0)), ElementId("node1", Timestamp(300, 0))];
            var e := WithDeleted(Typed(r, ids, "ABC"), ids[1]);
            Terminates(e, Some(r)) && Contents(e, r) == "AC"
  {
    var r := ElementId("node1", Timestamp(0, 0));
    var ids := [ElementId("node1", Timestamp(100, 0)), ElementId("node1", Timestamp(200, 0)), ElementId("node1", Timestamp(300, 0))];
    assert "ABC"[..1] + "ABC"[2..] == "AC";
    TypedDelete(r, ids, "ABC", 1);
  }

  // ----- the corrected insertion as a function -----

  /** `s[k]` is passed only over ids not greater than `n`: the slot of the corrected insertion. */
  function SlotOf(s: seq<ElementId>, n: ElementId): (k: nat)
    requires |s| > 0
    ensures SlotAt(s, k, n)
    decreases |s|
  {
    if |s| == 1 || IdLess(n, s[1]) then 0
    else 1 + SlotOf(s[1..], n)
  }

  /** A walk has one slot for a given new id. */
  lemma SlotUnique(s: seq<ElementId>, k: int, k': int, n: ElementId)
    requires SlotAt(s, k, n) && SlotAt(s, k', n)
    ensures k == k'
  {
  }

  /**
   * The elements after the corrected `insert_after(prev_id, v)` with new id
   * `n`: linked after the slot of the walk from `prev_id`; when `prev_id` is
   * not stored, stored unlinked with no successor, as the source does.
   */
  ghost function Inserted<T>(elems: Elements<T>, prevId: ElementId, n: ElementId, v: T): Elements<T>
    requires Terminates(elems, Some(prevId))
  {
    if prevId !in elems then elems[n := Element(Some(v), prevId, None, false)]
    else
      var s := Chain(elems, Some(prevId));
      Linked(elems, s[SlotOf(s, n)], n, v)
  }

  /**
   * The corrected insertion after `c[i]`, the `i`-th element of the root
   * chain `c`, whose slot is `k` places further along: the new element is
   * linked right after `c[i + k]`, so `InsertKeepsEverything` tells what
   * the chain and `to_vec` become.
   */
  lemma InsertedOnChain<T>(elems: Elements<T>, root: ElementId, i: nat, k: nat, n: ElementId, v: T)
    requires Terminates(elems, Some(root)) && i < |Chain(elems, Some(root))|
    requires SlotAt(Chain(elems, Some(root))[i..], k, n)
    ensures var c := Chain(elems, Some(root));
            && i + k < |c| && Terminates(elems, Some(c[i]))
            && Inserted(elems, c[i], n, v) == Linked(elems, c[i + k], n, v)
  {
    var c := Chain(elems, Some(root));
    ChainSuffix(elems, Some(root), i);
    InsertedIsLinked(elems, c[i], k, n, v);
    assert c[i..][k] == c[i + k];
  }


  /** Given the slot `k` of the walk from `prev`, the corrected insertion links the new element after its `k`-th id. */
  lemma InsertedIsLinked<T>(elems: Elements<T>, prev: ElementId, k: nat, n: ElementId, v: T)
    requires prev in elems && Terminates(elems, Some(prev))
    requires SlotAt(Chain(elems, Some(prev)), k, n)
    ensures Inserted(elems, prev, n, v) == Linked(elems, Chain(elems, Some(prev))[k], n, v)
  {
    var s := Chain(elems, Some(prev));
    SlotUnique(s, k, SlotOf(s, n), n);
  }



  /** Appending at the tail, `insert_after` as written and the corrected insertion agree. */
  lemma AtTailBothAgree<T>(elems: Elements<T>, prevId: ElementId, n: ElementId, v: T)
    requires prevId in elems && elems[prevId].next.None?
    ensures FindFrom(elems, NextOf(elems, prevId), n, 0) == Some(None)
    ensures Terminates(elems, Some(prevId))
    ensures Inserted(elems, prevId, n, v) == InsertedAsWritten(elems, prevId, n, v, None)
  {
    ChainOfLinks(elems, [prevId]);
    assert SlotOf([prevId], n) == 0;
  }

  /** The result of the `find_insert_position` loop, when it stops. */
  ghost function FindResult<T>(elems: Elements<T>, cur: Option<ElementId>, newId: ElementId): Option<ElementId>
    requires FindEnds(elems, cur, newId)
  {
    var fuel: nat :| FindFrom(elems, cur, newId, fuel).Some?;
    FindFrom(elems, cur, newId, fuel).value
  }

  /**
   * When the walk from `cur` stops, so does `find_insert_position`, and it
   * gives the first id on the walk greater than the new one.
   */
  lemma FindResultIsFirstGreater<T>(elems: Elements<T>, cur: Option<ElementId>, newId: ElementId)
    requires Terminates(elems, cur)
    ensures FindEnds(elems, cur, newId)
    ensures FindResult(elems, cur, newId) == FirstGreater(Chain(elems, cur), newId)
  {
    var fuel: nat :| Walk(elems, cur, fuel).Some?;
    FindIsFirstGreater(elems, cur, newId, fuel);
    ChainIs(elems, cur, fuel);
    var f: nat :| FindFrom(elems, cur, newId, f).Some? && FindResult(elems, cur, newId) == FindFrom(elems, cur, newId, f).value;
    if f <= fuel {
      FindMonotone(elems, cur, newId, f, fuel);
    } else {
      FindMonotone(elems, cur, newId, fuel, f);
    }
  }

  /** The id after the slot is the first id past `s[0]` greater than `n`: the one `find_insert_position` finds. */
  lemma {:induction false} SlotIsBeforeFirstGreater(s: seq<ElementId>, k: nat, n: ElementId)
    requires SlotAt(s, k, n)
    ensures FirstGreater(s[1..], n) == if k + 1 < |s| then Some(s[k + 1]) else None
    decreases k
  {
    if k == 0 {
      if |s| > 1 {
        assert s[1..][0] == s[1];
      } else {
        assert s[1..] == [];
      }
    } else {
      assert s[1..][1..] == s[2..] && s[1..][0] == s[1];
      assert SlotAt(s[1..], k - 1, n) by {
        forall m | 0 < m <= k - 1 ensures !IdLess(n, s[1..][m]) {
          assert s[1..][m] == s[m + 1];
        }
      }
      SlotIsBeforeFirstGreater(s[1..], k - 1, n);
    }
  }

  /**
   * The corrected insertion puts the new element right before the id that
   * `find_insert_position` returns, or at the end of the walk when it
   * returns `None`.
   */
  lemma InsertedBeforeFound<T>(elems: Elements<T>, prev: ElementId, n: ElementId)
    requires prev in elems && Terminates(elems, Some(prev))
    ensures Terminates(elems, NextOf(elems, prev)) && FindEnds(elems, NextOf(elems, prev), n)
    ensures var s := Chain(elems, Some(prev));
            var k := SlotOf(s, n);
            FindResult(elems, NextOf(elems, prev), n) == if k + 1 < |s| then Some(s[k + 1]) else None
  {
    var s := Chain(elems, Some(prev));
    if |s| > 1 {
      ChainSuffix(elems, Some(prev), 1);
      assert NextOf(elems, prev) == Some(s[1]);
    } else {
      assert Walk(elems, NextOf(elems, prev), 0) == Some([]);
      ChainIs(elems, NextOf(elems, prev), 0);
      assert s[1..] == [];
    }
    FindResultIsFirstGreater(elems, NextOf(elems, prev), n);
    SlotIsBeforeFirstGreater(s, SlotOf(s, n), n);
  }

  /** After the corrected insertion the returned id maps to the inserted value, live. */
  lemma InsertedStoresValue<T>(elems: Elements<T>, prevId: ElementId, n: ElementId, v: T)
    requires Terminates(elems, Some(prevId))
    ensures n in Inserted(elems, prevId, n, v)
    ensures Inserted(elems, prevId, n, v)[n].value == Some(v) && !Inserted(elems, prevId, n, v)[n].deleted
    ensures Inserted(elems, prevId, n, v).Keys == elems.Keys + {n}
  {
  }

  /** An element that is its own successor makes every walk through it endless: `to_vec` then never returns. */
  lemma {:induction false} SelfLoopNeverStops<T>(elems: Elements<T>, x: ElementId, fuel: nat)
    requires x in elems && elems[x].next == Some(x)
    ensures Walk(elems, Some(x), fuel).None?
    decreases fuel
  {
    if fuel > 0 {
      SelfLoopNeverStops(elems, x, fuel - 1);
    }
  }

  /** Hence the chain from such an element is not defined. */
  lemma SelfLoopDiverges<T>(elems: Elements<T>, x: ElementId)
    requires x in elems && elems[x].next == Some(x)
    ensures !Terminates(elems, Some(x))
  {
    forall fuel: nat ensures Walk(elems, Some(x), fuel).None? {
      SelfLoopNeverStops(elems, x, fuel);
    }
  }

  // ----- merge and rebuild_links -----

  /** The elements after the loop of `merge` (lines 134-146): missing elements copied, deletions propagated. */
  function MergedElements<T>(mine: Elements<T>, theirs: Elements<T>): Elements<T>
  {
    map id | id in mine.Keys + theirs.Keys ::
      if id !in mine then theirs[id]
      else if id in theirs && theirs[id].deleted then mine[id].(deleted := true, value := None)
      else mine[id]
  }

  /**
   * After the merge loop an id is stored iff it was on either side; it is
   * deleted iff either side had it deleted, so a merge never un-deletes; a
   * deleted id holds no value unless only the other side had it.
   */
  lemma MergedEffect<T>(mine: Elements<T>, theirs: Elements<T>, id: ElementId)
    ensures id in MergedElements(mine, theirs) <==> id in mine || id in theirs
    ensures id in MergedElements(mine, theirs) ==>
              (MergedElements(mine, theirs)[id].deleted <==>
                 (id in mine && mine[id].deleted) || (id in theirs && theirs[id].deleted))
    ensures id in mine && id in theirs && theirs[id].deleted ==> MergedElements(mine, theirs)[id].value.None?
    ensures id in mine && !(id in theirs && theirs[id].deleted) ==> MergedElements(mine, theirs)[id] == mine[id]
    ensures id !in mine && id in theirs ==> MergedElements(mine, theirs)[id] == theirs[id]
  {
  }

  /** Deleted elements hold no value: what `delete` leaves behind. */
  predicate DeletedEmpty<T>(elems: Elements<T>)
  {
    forall id :: id in elems && elems[id].deleted ==> elems[id].value.None?
  }

  /** Merging a replica into itself changes nothing, and merging keeps deleted elements empty. */
  lemma MergedIdempotent<T>(mine: Elements<T>, theirs: Elements<T>)
    requires DeletedEmpty(mine) && DeletedEmpty(theirs)
    ensures MergedElements(mine, mine) == mine
    ensures DeletedEmpty(MergedElements(mine, theirs))
  {
    assert MergedElements(mine, mine).Keys == mine.Keys;
  }

  /** `a` lists ids in strictly ascending order. */
  predicate StrictlySorted(a: seq<ElementId>)
  {
    forall i, j :: 0 <= i < j < |a| ==> IdLess(a[i], a[j])
  }

  /** There is a least id in a non-empty set. */
  lemma {:induction false} MinimumExists(s: set<ElementId>)
    requires s != {}
    ensures exists m :: m in s && forall x :: x in s && x != m ==> IdLess(m, x)
    decreases |s|
  {
    var y :| y in s;
    if s == {y} {
      assert forall x :: x in s && x != y ==> IdLess(y, x);
    } else {
      MinimumExists(s - {y});
      var m :| m in s - {y} && forall x :: x in s - {y} && x != m ==> IdLess(m, x);
      MinimumAddOne(s, y, m);
    }
  }

  /** The least of `s` without `y` and `y` itself: one of them is the least of `s`. */
  lemma MinimumAddOne(s: set<ElementId>, y: ElementId, m: ElementId)
    requires y in s && m in s && m != y
    requires forall x :: x in s && x != y && x != m ==> IdLess(m, x)
    ensures exists w :: w in s && forall x :: x in s && x != w ==> IdLess(w, x)
  {
    IdLessIsStrictTotal(m, y, m);
    if IdLess(y, m) {
      forall x | x in s && x != y ensures IdLess(y, x) {
        if x != m {
          IdLessIsStrictTotal(y, m, x);
        }
      }
    } else {
      assert forall x :: x in s && x != m ==> IdLess(m, x);
    }
  }

  /** `ordered.sort()` over the collected keys, as repeated extraction of the least id. */
  method SortedIds(s: set<ElementId>) returns (r: seq<ElementId>)
    ensures StrictlySorted(r)
    ensures forall id :: id in r <==> id in s
    ensures |r| == |s|
  {
    r := [];
    var rest := s;
    while rest != {}
      invariant rest <= s
      invariant StrictlySorted(r)
      invariant forall id :: id in r <==> id in s - rest
      invariant forall i, x :: 0 <= i < |r| && x in rest ==> IdLess(r[i], x)
      invariant |r| + |rest| == |s|
      decreases |rest|
    {
      MinimumExists(rest);
      var m :| m in rest && forall x :: x in rest && x != m ==> IdLess(m, x);
      forall i, x | 0 <= i < |r| && x in rest - {m} ensures IdLess(r[i], x) {
        IdLessIsStrictTotal(r[i], m, x);
      }
      r := r + [m];
      rest := rest - {m};
    }
  }

  /** In a strictly sorted run no id appears twice. */
  lemma SortedDistinct(a: seq<ElementId>)
    requires StrictlySorted(a)
    ensures forall i, j :: 0 <= i < |a| && 0 <= j < |a| && i != j ==> a[i] != a[j]
  {
    forall i, j | 0 <= i < |a| && 0 <= j < |a| && i != j ensures a[i] != a[j] {
      if i < j {
        IdLessIsStrictTotal(a[i], a[j], a[i]);
      } else {
        IdLessIsStrictTotal(a[j], a[i], a[j]);
      }
    }
  }

  /** What `rebuild_links` sets for `ordered[j]`: its neighbours in `[root] + ordered`. */
  function Relinked<T>(e: Element<T>, root: ElementId, ordered: seq<ElementId>, j: nat): Element<T>
    requires j < |ordered|
  {
    e.(prev := if j == 0 then root else ordered[j - 1], next := if j + 1 < |ordered| then Some(ordered[j + 1]) else None)
  }

  /**
   * After `rebuild_links` with the ids `ordered` (all stored, none the
   * root, none twice), the chain from the root is the root followed by
   * `ordered`.
   */
  lemma RelinkedChain<T>(elems: Elements<T>, root: ElementId, ordered: seq<ElementId>)
    requires root in elems && |ordered| > 0 && elems[root].next == Some(ordered[0])
    requires forall j :: 0 <= j < |ordered| ==> ordered[j] in elems && ordered[j] != root
    requires forall j :: 0 <= j < |ordered| - 1 ==> elems[ordered[j]].next == Some(ordered[j + 1])
    requires elems[ordered[|ordered| - 1]].next == None
    ensures Terminates(elems, Some(root)) && Chain(elems, Some(root)) == [root] + ordered
  {
    var t := [root] + ordered;
    forall i | 0 <= i < |t| - 1 ensures elems[t[i]].next == Some(t[i + 1]) {
      if i == 0 {
        assert t[0] == root && t[1] == ordered[0];
      } else {
        assert t[i] == ordered[i - 1] && t[i + 1] == ordered[i];
      }
    }
    forall i | 0 <= i < |t| ensures t[i] in elems {
      if i > 0 {
        assert t[i] == ordered[i - 1];
      }
    }
    assert t[|t| - 1] == ordered[|ordered| - 1];
    assert Links(elems, t);
    ChainOfLinks(elems, t);
  }

  /** The first `i` ids of `ordered` relinked, the rest of the elements as in `e0`. */
  ghost predicate RelinkedUpTo<T>(e0: Elements<T>, e: Elements<T>, root: ElementId, ordered: seq<ElementId>, i: nat)
    requires forall j :: 0 <= j < |ordered| ==> ordered[j] in e0
  {
    && i <= |ordered|
    && e.Keys == e0.Keys
    && (forall j :: 0 <= j < i ==> e[ordered[j]] == Relinked(e0[ordered[j]], root, ordered, j))
    && (forall j :: i <= j < |ordered| ==> e[ordered[j]] == e0[ordered[j]])
  }

  /** One step of the `rebuild_links` loop relinks `ordered[i]` and nothing else. */
  lemma RelinkStep<T>(e0: Elements<T>, e: Elements<T>, root: ElementId, ordered: seq<ElementId>, i: nat)
    requires forall j :: 0 <= j < |ordered| ==> ordered[j] in e0 && ordered[j] != root
    requires RelinkedUpTo(e0, e, root, ordered, i) && i < |ordered|
    requires forall j :: 0 <= j < |ordered| && j != i ==> ordered[j] != ordered[i]
    ensures var e' := e[ordered[i] := Relinked(e[ordered[i]], root, ordered, i)];
            && RelinkedUpTo(e0, e', root, ordered, i + 1)
            && (root in e ==> e'[root] == e[root])
            && e'[ordered[i]] == e[ordered[i]].(prev := if i == 0 then root else ordered[i - 1],
                                                next := if i + 1 < |ordered| then Some(ordered[i + 1]) else None)
  {
    var id := ordered[i];
    var e' := e[id := Relinked(e[id], root, ordered, i)];
    assert e[id] == e0[id];
    forall j | 0 <= j < i + 1 ensures e'[ordered[j]] == Relinked(e0[ordered[j]], root, ordered, j) {
      if j < i {
        assert ordered[j] != id;
      }
    }
    assert e'.Keys == e0.Keys;
  }

  /**
   * After `rebuild_links` over a replica holding the root and some other
   * id, the chain from the root is the root followed by every other id in
   * ascending order.
   */
  lemma RebuiltChain<T>(e0: Elements<T>, e1: Elements<T>, root: ElementId, ordered: seq<ElementId>)
    requires StrictlySorted(ordered) && forall id :: id in ordered <==> id in e0 && id != root
    requires e1.Keys == e0.Keys
    requires root in e1 ==> e1[root] == if |ordered| > 0 then e0[root].(next := Some(ordered[0])) else e0[root]
    requires forall j :: 0 <= j < |ordered| ==> e1[ordered[j]] == Relinked(e0[ordered[j]], root, ordered, j)
    ensures root in e1 && e1.Keys != {root} ==>
              && Terminates(e1, Some(root))
              && Chain(e1, Some(root))[0] == root
              && StrictlySorted(Chain(e1, Some(root))[1..])
              && forall id :: id in Chain(e1, Some(root))[1..] <==> id in e1 && id != root
  {
    if root in e1 && e1.Keys != {root} {
      var x :| x in e1 && x != root;
      assert x in ordered;
      forall j | 0 <= j < |ordered| ensures ordered[j] in e1 && ordered[j] != root {
        assert ordered[j] in ordered;
      }
      RelinkedChain(e1, root, ordered);
      assert Chain(e1, Some(root))[1..] == ordered;
    }
  }

  /** The virtual root's id for a sequence created by `actor`. */
  function RootId(actor: ActorId): ElementId
  {
    ElementId(actor, Timestamp(0, 0))
  }

  /** `RGA<T>`. */
  class RGA<T> {
    var elements: Elements<T>
    const root: ElementId

    /** `RGA::new(actor)`: the root alone. */
    constructor (actor: ActorId)
      ensures root == RootId(actor) && elements == NewElements(root)
    {
      root := RootId(actor);
      elements := NewElements(RootId(actor));
    }

    /** `find_insert_position(prev_id, new_id)`: the loop of lines 112-130. */
    method FindInsertPosition(prevId: ElementId, newId: ElementId) returns (r: Option<ElementId>)
      requires FindEnds(elements, NextOf(elements, prevId), newId)
      ensures r == FindResult(elements, NextOf(elements, prevId), newId)
    {
      ghost var start := NextOf(elements, prevId);
      ghost var target := FindResult(elements, start, newId);
      ghost var fuel: nat :| FindFrom(elements, start, newId, fuel) == Some(target);
      var current := None;
      if prevId in elements {
        current := elements[prevId].next;
      }
      while current.Some?
        invariant FindFrom(elements, current, newId, fuel) == Some(target)
        decreases fuel
      {
        if current.value !in elements {
          break;
        }
        if IdLess(newId, current.value) {
          return current;
        }
        current := elements[current.value].next;
        fuel := fuel - 1;
      }
      r := None;
    }

    /**
     * `insert_after(prev_id, value, actor, timestamp)`, corrected: the new
     * element goes into the slot that `find_insert_position` picks and is
     * linked from its predecessor as well as to its successor.
     */
    method InsertAfter(prevId: ElementId, value: T, actor: ActorId, timestamp: Timestamp) returns (id: ElementId)
      requires Terminates(elements, Some(prevId))
      modifies this
      ensures id == ElementId(actor, timestamp)
      ensures elements == Inserted(old(elements), prevId, id, value)
    {
      id := ElementId(actor, timestamp);
      if prevId !in elements {
        elements := elements[id := Element(Some(value), prevId, None, false)];
        return;
      }
      ghost var e0 := elements;
      ghost var s := Chain(elements, Some(prevId));
      ghost var k := 0;
      assert s != [] && Links(elements, s);
      var before := prevId;
      var current := elements[prevId].next;
      while current.Some? && current.value in elements && !IdLess(id, current.value)
        invariant elements == e0
        invariant 0 <= k < |s| && s[k] == before && before in elements && current == elements[before].next
        invariant forall m :: 0 < m <= k ==> !IdLess(id, s[m])
        decreases |s| - k
      {
        assert k + 1 < |s| && s[k + 1] == current.value;
        before := current.value;
        k := k + 1;
        current := elements[before].next;
      }
      if k + 1 < |s| {
        assert elements[s[k]].next == Some(s[k + 1]);
      }
      SlotUnique(s, k, SlotOf(s, id), id);
      ghost var linked := Linked(elements, before, id, value);
      elements := elements[before := elements[before].(next := Some(id))];
      elements := elements[id := Element(Some(value), before, current, false)];
      if current.Some? && current.value in elements {
        elements := elements[current.value := elements[current.value].(prev := id)];
      }
      assert elements == linked;
    }

    /** `delete(id)`. */
    method Delete(id: ElementId)
      modifies this
      ensures elements == WithDeleted(old(elements), id)
    {
      if id in elements {
        elements := elements[id := elements[id].(deleted := true, value := None)];
      }
    }

    /** `to_vec()`: the loop of lines 90-109, which stops only when the walk does. */
    method ToVec() returns (r: seq<T>)
      requires Terminates(elements, Some(root))
      ensures r == Contents(elements, root)
    {
      ghost var c := Chain(elements, Some(root));
      ghost var k := 0;
      r := [];
      var current := Some(root);
      while current.Some? && current.value in elements
        invariant k <= |c| && r == Visible(elements, c[..k])
        invariant k < |c| ==> current == Some(c[k])
        invariant k == |c| ==> current.None? || current.value !in elements
        decreases |c| - k
      {
        assert c[..k + 1] == c[..k] + [c[k]];
        VisibleConcat(elements, c[..k], [c[k]]);
        var elem := elements[current.value];
        if elem.value.Some? && !elem.deleted {
          r := r + [elem.value.value];
        }
        current := elem.next;
        k := k + 1;
      }
      assert c[..k] == c;
    }

    /**
     * `rebuild_links()`: sort the non-root ids, point the root at the
     * first, and give every id its neighbours in that order.
     */
    method RebuildLinks() returns (ordered: seq<ElementId>)
      modifies this
      ensures StrictlySorted(ordered) && forall id :: id in ordered <==> id in old(elements) && id != root
      ensures elements.Keys == old(elements).Keys
      ensures root in elements ==>
                elements[root] == if |ordered| > 0 then old(elements)[root].(next := Some(ordered[0])) else old(elements)[root]
      ensures forall j :: 0 <= j < |ordered| ==> elements[ordered[j]] == Relinked(old(elements)[ordered[j]], root, ordered, j)
    {
      ghost var e0 := elements;
      var elems := elements;
      ordered := SortedIds(set id | id in elems && id != root);
      SortedDistinct(ordered);
      forall j | 0 <= j < |ordered| ensures ordered[j] in elems && ordered[j] != root {
        assert ordered[j] in ordered;
      }
      if |ordered| > 0 && root in elems {
        elems := elems[root := elems[root].(next := Some(ordered[0]))];
      }
      ghost var start := elems;
      for i := 0 to |ordered|
        invariant RelinkedUpTo(e0, elems, root, ordered, i)
        invariant root in elems ==> elems[root] == start[root]
      {
        var id := ordered[i];
        var prev := if i == 0 then root else ordered[i - 1];
        var next := if i + 1 < |ordered| then Some(ordered[i + 1]) else None;
        RelinkStep(e0, elems, root, ordered, i);
        elems := elems[id := elems[id].(prev := prev, next := next)];
      }
      elements := elems;
    }

    /**
     * `merge(other)`: copy the elements missing here, propagate deletions,
     * then rebuild the links in id order.
     */
    method Merge(other: RGA<T>)
      requires other != this
      modifies this
      ensures elements.Keys == old(elements).Keys + old(other.elements).Keys
      ensures forall id :: id in elements ==>
                elements[id].value == MergedElements(old(elements), old(other.elements))[id].value &&
                elements[id].deleted == MergedElements(old(elements), old(other.elements))[id].deleted
      ensures root in elements && elements.Keys != {root} ==>
                && Terminates(elements, Some(root))
                && Chain(elements, Some(root))[0] == root
                && StrictlySorted(Chain(elements, Some(root))[1..])
                && forall id :: id in Chain(elements, Some(root))[1..] <==> id in elements && id != root
    {
      var theirs := other.elements;
      var elems := elements;
      ghost var mine := elements;
      var pending := theirs.Keys;
      while pending != {}
        invariant pending <= theirs.Keys
        invariant elems.Keys == mine.Keys + (theirs.Keys - pending)
        invariant forall id :: id in elems ==>
                    elems[id] == if id in theirs.Keys - pending then MergedElements(mine, theirs)[id] else mine[id]
        decreases pending
      {
        var id :| id in pending;
        if id !in elems {
          elems := elems[id := theirs[id]];
        } else if theirs[id].deleted {
          elems := elems[id := elems[id].(deleted := true, value := None)];
        }
        pending := pending - {id};
      }
      elements := elems;
      assert elements == MergedElements(mine, theirs);
      ghost var merged := elements;
      var ordered := RebuildLinks();
      RebuiltChain(merged, elements, root, ordered);
    }
  }
}
