/** One set-associative cache, on values: geometry, the four operations, and
    the blocks it holds. */
module CacheModel {
  import opened Bits

  const ADDRESS_SIZE := 32

  /** Bit widths, and the number of ways. */
  datatype Geometry = Geometry(offsetBits: nat, setBits: nat, tagBits: nat, ways: nat)

  datatype Entry = Entry(tag: nat, addr: Word, dirty: bool)

  datatype Cache = Cache(geo: Geometry, accessTime: nat, table: seq<seq<Entry>>, hits: nat, misses: nat)

  /** At least one way, and shifts that stay within a word: block and set
      bits together take at least one bit and leave at least one for the tag. */
  ghost predicate GeometryOk(g: Geometry) {
    && g.ways >= 1 && g.offsetBits + g.setBits >= 1 && g.tagBits >= 1
    && g.offsetBits + g.setBits + g.tagBits == ADDRESS_SIZE
  }

  function SetOf(g: Geometry, addr: nat): (r: nat)
    ensures r < Pow2(g.setBits)
  {
    GetBits(U32(addr), g.offsetBits, g.setBits)
  }

  function TagOf(g: Geometry, addr: nat): nat {
    GetBits(U32(addr), g.offsetBits + g.setBits, g.tagBits)
  }

  // ---------- one set ----------

  function IndexFrom(es: seq<Entry>, tag: nat, i: nat): (r: nat)
    requires i <= |es|
    ensures i <= r <= |es|
    ensures forall k :: i <= k < r ==> es[k].tag != tag
    ensures r < |es| ==> es[r].tag == tag
    decreases |es| - i
  {
    if i == |es| || es[i].tag == tag then i else IndexFrom(es, tag, i + 1)
  }

  /** The position of the first entry with the tag, or the length. */
  function IndexOf(es: seq<Entry>, tag: nat): (r: nat)
    ensures r <= |es|
    ensures forall k :: 0 <= k < r ==> es[k].tag != tag
    ensures r < |es| ==> es[r].tag == tag
  {
    IndexFrom(es, tag, 0)
  }

  predicate Has(es: seq<Entry>, tag: nat) {
    IndexOf(es, tag) < |es|
  }

  /** es without its entry i. */
  function Without(es: seq<Entry>, i: nat): (r: seq<Entry>)
    requires i < |es|
    ensures |r| == |es| - 1
  {
    es[..i] + es[i + 1..]
  }

  /** The entry moved to the front, and made dirty by a write. */
  function TouchSet(es: seq<Entry>, tag: nat, write: bool): seq<Entry> {
    var p := IndexOf(es, tag);
    if p < |es| then [es[p].(dirty := es[p].dirty || write)] + Without(es, p) else es
  }

  function RemoveFromSet(es: seq<Entry>, tag: nat): seq<Entry> {
    var p := IndexOf(es, tag);
    if p < |es| then Without(es, p) else es
  }

  function MarkInSet(es: seq<Entry>, tag: nat, dirty: bool): seq<Entry> {
    var p := IndexOf(es, tag);
    if p < |es| then es[p := es[p].(dirty := dirty)] else es
  }

  /** A new front entry, dropping the last one if the set overflows. */
  function InsertInSet(es: seq<Entry>, e: Entry, ways: nat): seq<Entry> {
    if |es| + 1 > ways then ([e] + es)[..|es|] else [e] + es
  }

  // ---------- the operations ----------

  predicate TableOk(c: Cache) {
    |c.table| == Pow2(c.geo.setBits)
  }

  /** The new cache, and whether it was a hit. */
  function Seek(c: Cache, addr: nat, write: bool, writeback: bool): (r: (Cache, bool))
    requires TableOk(c)
    ensures TableOk(r.0) && r.0.geo == c.geo && r.0.accessTime == c.accessTime
  {
    var s, t := SetOf(c.geo, addr), TagOf(c.geo, addr);
    if Has(c.table[s], t) then
      (c.(table := c.table[s := TouchSet(c.table[s], t, write)],
          hits := if writeback then c.hits else c.hits + 1), true)
    else
      (c.(misses := if writeback then c.misses else c.misses + 1), false)
  }

  /** The entry dropped by an insertion. */
  datatype Victim = NoVictim | Victim(addr: Word, dirty: bool)

  predicate VictimDirty(v: Victim) {
    v.Victim? && v.dirty
  }

  function NewEntry(g: Geometry, addr: nat): Entry {
    Entry(TagOf(g, addr), U32(addr), false)
  }

  function VictimOf(c: Cache, addr: nat): Victim
    requires TableOk(c)
  {
    var es := [NewEntry(c.geo, addr)] + c.table[SetOf(c.geo, addr)];
    if |es| > c.geo.ways then Victim(es[|es| - 1].addr, es[|es| - 1].dirty) else NoVictim
  }

  function AddAddress(c: Cache, addr: nat): (r: (Cache, Victim))
    requires TableOk(c)
    ensures TableOk(r.0) && r.0.geo == c.geo && r.0.accessTime == c.accessTime
  {
    var s := SetOf(c.geo, addr);
    (c.(table := c.table[s := InsertInSet(c.table[s], NewEntry(c.geo, addr), c.geo.ways)]), VictimOf(c, addr))
  }

  lemma VictimIsLast(c: Cache, addr: nat)
    requires TableOk(c) && AddAddress(c, addr).1.Victim? && |c.table[SetOf(c.geo, addr)]| > 0
    ensures var es := c.table[SetOf(c.geo, addr)];
            AddAddress(c, addr).1 == Victim(es[|es| - 1].addr, es[|es| - 1].dirty)
  {
  }

  function Remove(c: Cache, addr: nat): (r: Cache)
    requires TableOk(c)
    ensures TableOk(r) && r.geo == c.geo && r.accessTime == c.accessTime
  {
    var s := SetOf(c.geo, addr);
    c.(table := c.table[s := RemoveFromSet(c.table[s], TagOf(c.geo, addr))])
  }

  function MarkDirty(c: Cache, addr: nat, dirty: bool): (r: Cache)
    requires TableOk(c)
    ensures TableOk(r) && r.geo == c.geo && r.accessTime == c.accessTime
  {
    var s := SetOf(c.geo, addr);
    c.(table := c.table[s := MarkInSet(c.table[s], TagOf(c.geo, addr), dirty)])
  }

  // ---------- blocks ----------

  /** The block number of an address. */
  function Block(g: Geometry, addr: nat): nat {
    ShiftRight(U32(addr), g.offsetBits)
  }

  function SetOfBlock(g: Geometry, b: nat): (r: nat)
    ensures r < Pow2(g.setBits)
  {
    b % Pow2(g.setBits)
  }

  function TagOfBlock(g: Geometry, b: nat): nat {
    ShiftRight(b, g.setBits)
  }

  lemma {:induction false} Pow2Size()
    ensures Pow2(32) == U32_SIZE
  {
    assert Pow2(8) == 256;
    Pow2Adds(8, 8);
    Pow2Adds(16, 16);
  }

  /** Set and tag of an address are those of its block. */
  lemma SplitIs(g: Geometry, addr: nat)
    requires GeometryOk(g)
    ensures SetOf(g, addr) == SetOfBlock(g, Block(g, addr))
    ensures TagOf(g, addr) == TagOfBlock(g, Block(g, addr))
  {
    var a := U32(addr);
    Pow2Adds(g.offsetBits, g.setBits);
    DivDiv(a, Pow2(g.offsetBits), Pow2(g.setBits));
    Pow2Adds(g.offsetBits + g.setBits, g.tagBits);
    Pow2Size();
    var d, m := Pow2(g.offsetBits + g.setBits), Pow2(g.tagBits);
    QuotientBound(a, d, m);
  }

  lemma QuotientBound(a: nat, d: nat, m: nat)
    requires d > 0 && a < d * m
    ensures (a / d) % m == a / d
  {
    var q := a / d;
    DivNonNegative(a, d);
    assert a == d * q + a % d;
    if m < q {
      MulStep(d, m, q);
    }
    DivIs(q, m, 0, q);
  }

  lemma BlockFromSplit(g: Geometry, b: nat)
    ensures b == TagOfBlock(g, b) * Pow2(g.setBits) + SetOfBlock(g, b)
  {
  }

  /** From the lowest bits up an address is made of the offset in its block, its
      set and its tag. */
  lemma AddressSplit(g: Geometry, addr: nat)
    requires GeometryOk(g)
    ensures U32(addr) == (TagOf(g, addr) * Pow2(g.setBits) + SetOf(g, addr)) * Pow2(g.offsetBits)
                         + U32(addr) % Pow2(g.offsetBits)
  {
    SplitIs(g, addr);
    BlockFromSplit(g, Block(g, addr));
    ShiftSplit(U32(addr), g.offsetBits);
  }

  /** Two caches with the same block size agree on when two addresses are in
      the same block: exactly when set and tag agree, in either. */
  lemma GeometriesAgree(g: Geometry, h: Geometry, a: nat, b: nat)
    requires GeometryOk(g) && GeometryOk(h) && g.offsetBits == h.offsetBits
    ensures (SetOf(g, a) == SetOf(g, b) && TagOf(g, a) == TagOf(g, b)) <==> Block(g, a) == Block(g, b)
    ensures (SetOf(g, a) == SetOf(g, b) && TagOf(g, a) == TagOf(g, b))
            <==> (SetOf(h, a) == SetOf(h, b) && TagOf(h, a) == TagOf(h, b))
  {
    SplitIs(g, a);
    SplitIs(g, b);
    SplitIs(h, a);
    SplitIs(h, b);
    BlockFromSplit(g, Block(g, a));
    BlockFromSplit(g, Block(g, b));
    BlockFromSplit(h, Block(h, a));
    BlockFromSplit(h, Block(h, b));
  }
}
