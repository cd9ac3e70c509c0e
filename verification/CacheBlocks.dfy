/** What each cache operation does to the set of blocks a cache holds, to their
    dirty bits, and to its well-formedness. */
module CacheBlocks {
  import opened Bits
  import opened CacheModel

  // ---------- one set ----------

  ghost predicate DistinctTags(es: seq<Entry>) {
    forall i, j :: 0 <= i < j < |es| ==> es[i].tag != es[j].tag
  }

  ghost predicate DirtyIn(es: seq<Entry>, tag: nat) {
    exists i :: 0 <= i < |es| && es[i].tag == tag && es[i].dirty
  }

  lemma WithoutIs(es: seq<Entry>, p: nat)
    requires DistinctTags(es) && p < |es|
    ensures var r := Without(es, p);
            && DistinctTags(r)
            && (forall e :: e in r ==> e in es)
            && (forall x :: Has(r, x) <==> Has(es, x) && x != es[p].tag)
            && (forall x :: DirtyIn(r, x) <==> DirtyIn(es, x) && x != es[p].tag)
  {
    var r := Without(es, p);
    assert forall k :: 0 <= k < |r| ==> r[k] == if k < p then es[k] else es[k + 1];
    assert forall k :: 0 <= k < |es| && k != p ==> es[k] == r[if k < p then k else k - 1];
  }

  lemma PrependIs(e: Entry, es: seq<Entry>)
    requires DistinctTags(es) && !Has(es, e.tag)
    ensures var r := [e] + es;
            && DistinctTags(r)
            && (forall x :: Has(r, x) <==> Has(es, x) || x == e.tag)
            && (forall x :: DirtyIn(r, x) <==> DirtyIn(es, x) || (x == e.tag && e.dirty))
  {
    var r := [e] + es;
    assert forall k :: 0 <= k < |es| ==> r[k + 1] == es[k];
    assert r[0] == e;
  }

  lemma TouchIs(es: seq<Entry>, tag: nat, write: bool)
    requires DistinctTags(es) && Has(es, tag)
    ensures var r := TouchSet(es, tag, write);
            && DistinctTags(r) && |r| == |es|
            && (forall e :: e in r ==> exists d :: d in es && d.tag == e.tag && d.addr == e.addr)
            && (forall x :: Has(r, x) <==> Has(es, x))
            && (forall x :: DirtyIn(r, x) <==> DirtyIn(es, x) || (x == tag && write))
  {
    var p := IndexOf(es, tag);
    WithoutIs(es, p);
    var e := es[p].(dirty := es[p].dirty || write);
    PrependIs(e, Without(es, p));
    assert es[p] in es;
    assert DirtyIn(es, tag) <==> es[p].dirty;
  }

  lemma RemoveIs(es: seq<Entry>, tag: nat)
    requires DistinctTags(es)
    ensures var r := RemoveFromSet(es, tag);
            && DistinctTags(r) && |r| <= |es|
            && (forall e :: e in r ==> e in es)
            && (forall x :: Has(r, x) <==> Has(es, x) && x != tag)
            && (forall x :: DirtyIn(r, x) <==> DirtyIn(es, x) && x != tag)
  {
    if Has(es, tag) {
      WithoutIs(es, IndexOf(es, tag));
    }
  }

  lemma MarkIs(es: seq<Entry>, tag: nat, dirty: bool)
    requires DistinctTags(es)
    ensures var r := MarkInSet(es, tag, dirty);
            && DistinctTags(r) && |r| == |es|
            && (forall i :: 0 <= i < |es| ==> r[i].tag == es[i].tag && r[i].addr == es[i].addr)
            && (forall x :: Has(r, x) <==> Has(es, x))
            && (forall x :: DirtyIn(r, x) <==> if x == tag then dirty && Has(es, x) else DirtyIn(es, x))
  {
    var r, p := MarkInSet(es, tag, dirty), IndexOf(es, tag);
    forall x
      ensures Has(r, x) <==> Has(es, x)
      ensures DirtyIn(r, x) <==> if x == tag then dirty && Has(es, x) else DirtyIn(es, x)
    {
      if x == tag && p < |es| {
        assert r[p].tag == tag && r[p].dirty == dirty;
      } else {
        assert forall i :: 0 <= i < |es| && es[i].tag == x ==> r[i] == es[i];
      }
    }
  }

  /** The last entry of an overfull set is the one that goes. */
  lemma InsertIs(es: seq<Entry>, e: Entry, ways: nat)
    requires DistinctTags(es) && !Has(es, e.tag) && |es| <= ways && ways >= 1 && !e.dirty
    ensures var r, full, last := InsertInSet(es, e, ways), [e] + es, ([e] + es)[|es|];
            && DistinctTags(r) && |r| <= ways && r[0] == e
            && (forall d :: d in r ==> d == e || d in es)
            && (if |es| < ways then r == full
                else Has(es, last.tag) && last in es && (last.dirty <==> DirtyIn(es, last.tag)))
            && (forall x :: Has(r, x) <==> x == e.tag || (Has(es, x) && !(|es| == ways && x == last.tag)))
            && (forall x :: DirtyIn(r, x) <==> DirtyIn(es, x) && !(|es| == ways && x == last.tag))
  {
    if |es| < ways {
      PrependIs(e, es);
    } else {
      var rest := Without(es, |es| - 1);
      WithoutIs(es, |es| - 1);
      PrependIs(e, rest);
      assert InsertInSet(es, e, ways) == [e] + rest;
    }
  }

  // ---------- the whole cache ----------

  ghost predicate SetOk(g: Geometry, k: nat, es: seq<Entry>) {
    && DistinctTags(es) && |es| <= g.ways
    && (forall e :: e in es ==> e.tag == TagOf(g, e.addr) && k == SetOf(g, e.addr))
  }

  /** Every set has at most `ways` entries, with distinct tags, each with an
      address of its own set and tag. */
  ghost predicate CacheOk(c: Cache) {
    GeometryOk(c.geo) && TableOk(c) && forall k :: 0 <= k < |c.table| ==> SetOk(c.geo, k, c.table[k])
  }

  ghost predicate Holds(c: Cache, b: nat)
    requires TableOk(c)
  {
    Has(c.table[SetOfBlock(c.geo, b)], TagOfBlock(c.geo, b))
  }

  ghost predicate DirtyAt(c: Cache, b: nat)
    requires TableOk(c)
  {
    DirtyIn(c.table[SetOfBlock(c.geo, b)], TagOfBlock(c.geo, b))
  }

  lemma SameBlock(g: Geometry, a: nat, b: nat)
    requires SetOfBlock(g, a) == SetOfBlock(g, b) && TagOfBlock(g, a) == TagOfBlock(g, b)
    ensures a == b
  {
    BlockFromSplit(g, a);
    BlockFromSplit(g, b);
  }

  /** r holds the same blocks as c, with blk dirtied if it is held and asked for. */
  ghost predicate Sought(c: Cache, blk: nat, write: bool, r: Cache)
    requires TableOk(c) && TableOk(r)
  {
    && CacheOk(r) && r.geo == c.geo
    && (forall b: nat :: Holds(r, b) <==> Holds(c, b))
    && (forall b: nat :: DirtyAt(r, b) <==> DirtyAt(c, b) || (b == blk && write && Holds(c, b)))
  }

  /** r is c without blk. */
  ghost predicate Removed(c: Cache, blk: nat, r: Cache)
    requires TableOk(c) && TableOk(r)
  {
    && CacheOk(r) && r.geo == c.geo
    && (forall b: nat :: Holds(r, b) <==> Holds(c, b) && b != blk)
    && (forall b: nat :: DirtyAt(r, b) <==> DirtyAt(c, b) && b != blk)
  }

  /** r is c with the dirty bit of blk set as given. */
  ghost predicate Marked(c: Cache, blk: nat, dirty: bool, r: Cache)
    requires TableOk(c) && TableOk(r)
  {
    && CacheOk(r) && r.geo == c.geo
    && (forall b: nat :: Holds(r, b) <==> Holds(c, b))
    && (forall b: nat :: DirtyAt(r, b) <==> if b == blk then dirty && Holds(c, b) else DirtyAt(c, b))
  }

  /** r is c with blk, clean, in place of the victim. */
  ghost predicate Added(c: Cache, blk: nat, r: Cache, v: Victim)
    requires TableOk(c) && TableOk(r)
  {
    && CacheOk(r) && r.geo == c.geo
    && (v.Victim? ==> Holds(c, Block(c.geo, v.addr)) && (v.dirty <==> DirtyAt(c, Block(c.geo, v.addr))))
    && (forall b: nat :: Holds(r, b) <==> b == blk || (Holds(c, b) && !Drops(c.geo, v, b)))
    && (forall b: nat :: DirtyAt(r, b) <==> DirtyAt(c, b) && !Drops(c.geo, v, b))
  }

  lemma SeekIs(c: Cache, addr: nat, write: bool, writeback: bool)
    requires CacheOk(c)
    ensures var (r, hit) := Seek(c, addr, write, writeback); var blk := Block(c.geo, addr);
            Sought(c, blk, write, r) && (hit <==> Holds(c, blk))
  {
    SplitIs(c.geo, addr);
    var s, t, blk := SetOf(c.geo, addr), TagOf(c.geo, addr), Block(c.geo, addr);
    var r := Seek(c, addr, write, writeback).0;
    if Has(c.table[s], t) {
      TouchIs(c.table[s], t, write);
    }
    forall b: nat
      ensures Holds(r, b) <==> Holds(c, b)
      ensures DirtyAt(r, b) <==> DirtyAt(c, b) || (b == blk && write && Holds(c, b))
    {
      if SetOfBlock(c.geo, b) == s && TagOfBlock(c.geo, b) == t {
        SameBlock(c.geo, b, blk);
      }
    }
  }

  lemma RemoveBlockIs(c: Cache, addr: nat)
    requires CacheOk(c)
    ensures Removed(c, Block(c.geo, addr), Remove(c, addr))
  {
    SplitIs(c.geo, addr);
    var s, t, blk := SetOf(c.geo, addr), TagOf(c.geo, addr), Block(c.geo, addr);
    RemoveIs(c.table[s], t);
    forall b: nat
      ensures Holds(Remove(c, addr), b) <==> Holds(c, b) && b != blk
      ensures DirtyAt(Remove(c, addr), b) <==> DirtyAt(c, b) && b != blk
    {
      if SetOfBlock(c.geo, b) == s && TagOfBlock(c.geo, b) == t {
        SameBlock(c.geo, b, blk);
      }
    }
  }

  lemma MarkBlockIs(c: Cache, addr: nat, dirty: bool)
    requires CacheOk(c)
    ensures Marked(c, Block(c.geo, addr), dirty, MarkDirty(c, addr, dirty))
  {
    SplitIs(c.geo, addr);
    var s, t, blk := SetOf(c.geo, addr), TagOf(c.geo, addr), Block(c.geo, addr);
    MarkIs(c.table[s], t, dirty);
    var r := MarkDirty(c, addr, dirty);
    assert SetOk(c.geo, s, r.table[s]) by {
      forall e | e in r.table[s]
        ensures e.tag == TagOf(c.geo, e.addr) && s == SetOf(c.geo, e.addr)
      {
        var i :| 0 <= i < |r.table[s]| && r.table[s][i] == e;
        assert c.table[s][i] in c.table[s];
      }
    }
    forall b: nat
      ensures Holds(r, b) <==> Holds(c, b)
      ensures DirtyAt(r, b) <==> if b == blk then dirty && Holds(c, b) else DirtyAt(c, b)
    {
      if SetOfBlock(c.geo, b) == s && TagOfBlock(c.geo, b) == t {
        SameBlock(c.geo, b, blk);
      }
    }
  }

  /** b is the block of a victim. */
  ghost predicate Drops(g: Geometry, v: Victim, b: nat) {
    v.Victim? && Block(g, v.addr) == b
  }

  /** The victim is an entry of the set, with its own block. */
  lemma VictimIs(c: Cache, addr: nat)
    requires CacheOk(c) && AddAddress(c, addr).1.Victim? && |c.table[SetOf(c.geo, addr)]| > 0
    ensures var s, v := SetOf(c.geo, addr), AddAddress(c, addr).1;
            var es := c.table[s];
            && v == Victim(es[|es| - 1].addr, es[|es| - 1].dirty) && |es| == c.geo.ways
            && SetOfBlock(c.geo, Block(c.geo, v.addr)) == s
            && TagOfBlock(c.geo, Block(c.geo, v.addr)) == es[|es| - 1].tag
  {
    var s := SetOf(c.geo, addr);
    var es := c.table[s];
    VictimIsLast(c, addr);
    assert SetOk(c.geo, s, es) && es[|es| - 1] in es;
    SplitIs(c.geo, es[|es| - 1].addr);
  }

  lemma InsertedIsOk(g: Geometry, es: seq<Entry>, addr: nat)
    requires g.ways >= 1 && SetOk(g, SetOf(g, addr), es) && !Has(es, TagOf(g, addr))
    ensures SetOk(g, SetOf(g, addr), InsertInSet(es, NewEntry(g, addr), g.ways))
  {
    var r := InsertInSet(es, NewEntry(g, addr), g.ways);
    InsertIs(es, NewEntry(g, addr), g.ways);
    forall d | d in r
      ensures d.tag == TagOf(g, d.addr) && SetOf(g, d.addr) == SetOf(g, addr)
    {
      assert d == NewEntry(g, addr) || d in es;
    }
  }

  lemma AddedIsOk(c: Cache, addr: nat)
    requires CacheOk(c) && !Holds(c, Block(c.geo, addr))
    ensures CacheOk(AddAddress(c, addr).0)
  {
    SplitIs(c.geo, addr);
    var s := SetOf(c.geo, addr);
    assert SetOk(c.geo, s, c.table[s]);
    InsertedIsOk(c.geo, c.table[s], addr);
  }

  lemma AddIs(c: Cache, addr: nat)
    requires CacheOk(c) && !Holds(c, Block(c.geo, addr))
    ensures var (r, v) := AddAddress(c, addr); Added(c, Block(c.geo, addr), r, v)
  {
    SplitIs(c.geo, addr);
    var s, t, blk := SetOf(c.geo, addr), TagOf(c.geo, addr), Block(c.geo, addr);
    var (r, v) := AddAddress(c, addr);
    var es := c.table[s];
    AddedIsOk(c, addr);
    assert SetOk(c.geo, s, es);
    InsertIs(es, NewEntry(c.geo, addr), c.geo.ways);
    if v.Victim? {
      VictimIs(c, addr);
    }
    forall b: nat
      ensures Holds(r, b) <==> b == blk || (Holds(c, b) && !Drops(c.geo, v, b))
      ensures DirtyAt(r, b) <==> DirtyAt(c, b) && !Drops(c.geo, v, b)
    {
      if SetOfBlock(c.geo, b) == s {
        if TagOfBlock(c.geo, b) == t {
          SameBlock(c.geo, b, blk);
        }
        if v.Victim? && TagOfBlock(c.geo, b) == TagOfBlock(c.geo, Block(c.geo, v.addr)) {
          SameBlock(c.geo, b, Block(c.geo, v.addr));
        }
      }
    }
  }
}
