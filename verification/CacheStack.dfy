/** The LRU stack property: of two caches that differ only in their number of
    ways, the larger one holds everything the smaller one holds. */
module CacheStack {
  import opened Bits
  import opened CacheModel
  import T = CacheTraces

  /** One cache used alone: a lookup, and an insertion on a miss. */
  function AccessCache(c: Cache, addr: nat, write: bool): (r: Cache)
    requires TableOk(c)
    ensures TableOk(r) && r.geo == c.geo
  {
    var (c', hit) := Seek(c, addr, write, false);
    if hit then c' else AddAddress(c', addr).0
  }

  function RunCache(c: Cache, trace: seq<(nat, bool)>, n: nat): (r: Cache)
    requires TableOk(c) && n <= |trace|
    ensures TableOk(r) && r.geo == c.geo
  {
    if n == 0 then c else AccessCache(RunCache(c, trace, n - 1), trace[n - 1].0, trace[n - 1].1)
  }

  // ---------- lists of tags ----------

  function Tags(es: seq<Entry>): (r: seq<nat>)
    ensures |r| == |es|
    ensures forall i :: 0 <= i < |es| ==> r[i] == es[i].tag
  {
    seq(|es|, i requires 0 <= i < |es| => es[i].tag)
  }

  /** What an access does to the tags of a set. */
  function AccessSet(es: seq<Entry>, e: Entry, write: bool, ways: nat): seq<Entry> {
    if Has(es, e.tag) then TouchSet(es, e.tag, write) else InsertInSet(es, e, ways)
  }

  /** es holds at most `small` entries and is, tag by tag, a prefix of ds. */
  ghost predicate Stacked(es: seq<Entry>, ds: seq<Entry>, small: nat, large: nat) {
    |es| <= small && |ds| <= large && Tags(es) <= Tags(ds)
  }

  lemma SameTag(es: seq<Entry>, ds: seq<Entry>, small: nat, large: nat, i: nat)
    requires Stacked(es, ds, small, large) && i < |es|
    ensures i < |ds| && es[i].tag == ds[i].tag
  {
    assert Tags(es)[i] == Tags(ds)[i];
  }

  /** A tag found in the smaller set is at the same place in the larger one. */
  lemma FoundInLarger(es: seq<Entry>, ds: seq<Entry>, small: nat, large: nat, tag: nat)
    requires Stacked(es, ds, small, large)
    ensures if Has(es, tag) then IndexOf(ds, tag) == IndexOf(es, tag) else IndexOf(ds, tag) >= |es|
  {
    var p, q := IndexOf(es, tag), IndexOf(ds, tag);
    if p < |es| {
      SameTag(es, ds, small, large, p);
    }
    if q < |es| {
      SameTag(es, ds, small, large, q);
    }
    assert |Tags(es)| <= |Tags(ds)|;
  }

  /** The tag at each place after an access. */
  lemma AccessedTag(es: seq<Entry>, e: Entry, write: bool, ways: nat, i: nat)
    requires i < |AccessSet(es, e, write, ways)|
    ensures var p := IndexOf(es, e.tag);
            i <= |es| && AccessSet(es, e, write, ways)[i].tag ==
                         if i == 0 then e.tag else if i <= p then es[i - 1].tag else es[i].tag
  {
    var p := IndexOf(es, e.tag);
    if p < |es| && i > 0 {
      assert Without(es, p)[i - 1] == if i <= p then es[i - 1] else es[i];
    }
  }

  lemma AccessedSize(es: seq<Entry>, e: Entry, write: bool, ways: nat)
    requires |es| <= ways
    ensures |AccessSet(es, e, write, ways)| == if Has(es, e.tag) || |es| == ways then |es| else |es| + 1
  {
  }

  lemma AccessStacked(es: seq<Entry>, ds: seq<Entry>, e: Entry, write: bool, small: nat, large: nat)
    requires Stacked(es, ds, small, large) && small <= large
    ensures Stacked(AccessSet(es, e, write, small), AccessSet(ds, e, write, large), small, large)
    ensures Has(es, e.tag) ==> Has(ds, e.tag)
  {
    var es', ds' := AccessSet(es, e, write, small), AccessSet(ds, e, write, large);
    FoundInLarger(es, ds, small, large, e.tag);
    AccessedSize(es, e, write, small);
    AccessedSize(ds, e, write, large);
    assert |Tags(es)| <= |Tags(ds)|;
    forall i | 0 <= i < |es'|
      ensures i < |ds'| && Tags(es')[i] == Tags(ds')[i]
    {
      AccessedTag(es, e, write, small, i);
      AccessedTag(ds, e, write, large, i);
      if 0 < i <= |es| {
        SameTag(es, ds, small, large, i - 1);
      }
      if i < |es| {
        SameTag(es, ds, small, large, i);
      }
    }
  }

  // ---------- whole caches ----------

  ghost predicate CachesStacked(c: Cache, d: Cache) {
    && GeometryOk(c.geo) && TableOk(c) && TableOk(d)
    && c.geo.offsetBits == d.geo.offsetBits && c.geo.setBits == d.geo.setBits && c.geo.tagBits == d.geo.tagBits
    && c.geo.ways <= d.geo.ways
    && (forall k :: 0 <= k < |c.table| ==> Stacked(c.table[k], d.table[k], c.geo.ways, d.geo.ways))
  }

  lemma AccessIs(c: Cache, addr: nat, write: bool)
    requires TableOk(c)
    ensures var s, t := SetOf(c.geo, addr), TagOf(c.geo, addr);
            var r := AccessCache(c, addr, write);
            && r.table == c.table[s := AccessSet(c.table[s], NewEntry(c.geo, addr), write, c.geo.ways)]
            && r.hits == c.hits + (if Has(c.table[s], t) then 1 else 0)
  {
  }

  lemma AccessCachesStacked(c: Cache, d: Cache, addr: nat, write: bool)
    requires CachesStacked(c, d)
    ensures var c', d' := AccessCache(c, addr, write), AccessCache(d, addr, write);
            CachesStacked(c', d') && c'.hits - c.hits <= d'.hits - d.hits
  {
    AccessIs(c, addr, write);
    AccessIs(d, addr, write);
    var s := SetOf(c.geo, addr);
    AccessStacked(c.table[s], d.table[s], NewEntry(c.geo, addr), write, c.geo.ways, d.geo.ways);
  }

  /** Over any accesses, each set of the smaller cache stays, tag by tag, a
      prefix of the larger cache's set, and the larger cache has at least as many hits. */
  lemma {:induction false} LargerCacheKeepsMore(c: Cache, d: Cache, trace: seq<(nat, bool)>, n: nat)
    requires CachesStacked(c, d) && c.hits <= d.hits && n <= |trace|
    ensures CachesStacked(RunCache(c, trace, n), RunCache(d, trace, n))
    ensures RunCache(c, trace, n).hits <= RunCache(d, trace, n).hits
  {
    if n > 0 {
      LargerCacheKeepsMore(c, d, trace, n - 1);
      AccessCachesStacked(RunCache(c, trace, n - 1), RunCache(d, trace, n - 1), trace[n - 1].0, trace[n - 1].1);
    }
  }

  /** Starting empty, adding ways never loses a hit. */
  lemma MoreWaysMoreHits(g: Geometry, ways: nat, trace: seq<(nat, bool)>, n: nat)
    requires GeometryOk(g) && g.ways <= ways && n <= |trace|
    ensures RunCache(T.EmptyCache(g, 0), trace, n).hits <= RunCache(T.EmptyCache(g.(ways := ways), 0), trace, n).hits
  {
    LargerCacheKeepsMore(T.EmptyCache(g, 0), T.EmptyCache(g.(ways := ways), 0), trace, n);
  }
}
