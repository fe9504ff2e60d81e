/**
 * `LatencySimulator` of src/athens/network.rs: a table of base latencies,
 * in milliseconds, between named locations, and the lookup that falls back
 * to the reverse pair and then to a rule by region.
 *
 * The latencies are `u64`; every value here is small, so they are `nat`.
 * `NetworkMessage` carries no behaviour and is not modelled.
 */
module AthensNetwork {
  type Table = map<(string, string), nat>

  /** The latency when no entry covers two locations in different regions. */
  const CrossRegion: nat := 250

  /** The latency when no entry covers two locations in one region. */
  const SameRegion: nat := 5

  /** `str::starts_with`. */
  predicate HasPrefix(s: string, prefix: string)
  {
    |prefix| <= |s| && s[..|prefix|] == prefix
  }

  /** The region of a location: every name starting "london" is London. */
  function Region(location: string): string
  {
    if HasPrefix(location, "london") then "london" else location
  }

  /** The entries `LatencySimulator::new` inserts, in its order. */
  function DefaultTable(): Table
  {
    map[("perth", "london") := 250, ("london", "perth") := 250,
        ("london-main", "london-mini") := 2, ("london-mini", "london-main") := 2,
        ("london-main", "london-secondary") := 5, ("london-secondary", "london-main") := 5,
        ("london-mini", "london-secondary") := 3, ("london-secondary", "london-mini") := 3,
        ("perth", "perth") := 0, ("london-main", "london-main") := 0]
  }

  /**
   * `get_latency(from, to)` on a table: 0 from a location to itself, else the
   * entry for the pair, else the entry for the reverse pair, else the
   * default by region.
   */
  function Latency(t: Table, from: string, to: string): (r: nat)
    ensures from == to ==> r == 0
    ensures r == 0 || r in t.Values || r == CrossRegion || r == SameRegion
  {
    if from == to then 0
    else if (from, to) in t then t[(from, to)]
    else if (to, from) in t then t[(to, from)]
    else if Region(from) != Region(to) then CrossRegion
    else SameRegion
  }

  /**
   * A pair the table lists in neither direction gets the default for its
   * regions: names starting "london" are one region, any other name is a
   * region of its own.
   */
  lemma UnlistedLatency(t: Table, from: string, to: string)
    requires from != to && (from, to) !in t && (to, from) !in t
    ensures HasPrefix(from, "london") && HasPrefix(to, "london") ==> Latency(t, from, to) == SameRegion
    ensures HasPrefix(from, "london") != HasPrefix(to, "london") ==> Latency(t, from, to) == CrossRegion
    ensures !HasPrefix(from, "london") && !HasPrefix(to, "london") ==> Latency(t, from, to) == CrossRegion
  {
  }

  /** Each pair has the same latency both ways. */
  ghost predicate Symmetric(t: Table)
  {
    forall a, b :: (a, b) in t ==> (b, a) in t && t[(b, a)] == t[(a, b)]
  }

  /** The lookup is symmetric on a symmetric table. */
  lemma LatencySymmetric(t: Table, from: string, to: string)
    requires Symmetric(t)
    ensures Latency(t, from, to) == Latency(t, to, from)
  {
    if from != to && (from, to) in t {
      assert (to, from) in t;
    }
  }

  /** The table `new` builds is symmetric. */
  lemma DefaultTableSymmetric()
    ensures Symmetric(DefaultTable())
  {
    var t := DefaultTable();
    forall a, b | (a, b) in t
      ensures (b, a) in t && t[(b, a)] == t[(a, b)]
    {
    }
  }

  /** The latencies the table gives between its named locations, in both directions. */
  lemma DefaultLatencies()
    ensures Latency(DefaultTable(), "perth", "london") == 250 && Latency(DefaultTable(), "london", "perth") == 250
    ensures Latency(DefaultTable(), "london-main", "london-mini") == 2 && Latency(DefaultTable(), "london-mini", "london-main") == 2
    ensures Latency(DefaultTable(), "london-main", "london-secondary") == 5
    ensures Latency(DefaultTable(), "london-secondary", "london-main") == 5
    ensures Latency(DefaultTable(), "london-mini", "london-secondary") == 3
    ensures Latency(DefaultTable(), "london-secondary", "london-mini") == 3
  {
  }

  /** Every latency the built table gives is one of 0, 2, 3, 5 and 250. */
  lemma DefaultLatencyValues(from: string, to: string)
    ensures Latency(DefaultTable(), from, to) in {0, 2, 3, 5, 250}
  {
    var t := DefaultTable();
    forall v | v in t.Values
      ensures v in {0, 2, 3, 5, 250}
    {
      var k :| k in t && t[k] == v;
    }
  }

  /** `LatencySimulator`. */
  class LatencySimulator {
    var locationLatencies: Table

    /** `LatencySimulator::new()`: the ten entries, inserted one by one. */
    constructor ()
      ensures locationLatencies == DefaultTable()
    {
      var t: Table := map[];
      t := t[("perth", "london") := 250];
      t := t[("london", "perth") := 250];
      t := t[("london-main", "london-mini") := 2];
      t := t[("london-mini", "london-main") := 2];
      t := t[("london-main", "london-secondary") := 5];
      t := t[("london-secondary", "london-main") := 5];
      t := t[("london-mini", "london-secondary") := 3];
      t := t[("london-secondary", "london-mini") := 3];
      t := t[("perth", "perth") := 0];
      t := t[("london-main", "london-main") := 0];
      locationLatencies := t;
    }

    /** `get_latency(from, to)`. */
    function GetLatency(from: string, to: string): (r: nat)
      reads this
      ensures r == Latency(locationLatencies, from, to)
    {
      Latency(locationLatencies, from, to)
    }
  }
}
