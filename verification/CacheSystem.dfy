/** The two-level protocol: what one access does to the blocks each level holds
    and to their dirtiness, and which victims it drops. */
module CacheSystem {
  import opened Bits
  import opened CacheModel
  import opened CacheBlocks

  datatype Access = Access(write: bool, addr: nat)

  datatype System = System(l1: Cache, l2: Cache)

  /** memCyc and the write-allocate switch. */
  datatype Params = Params(memCyc: nat, wrAlloc: bool)

  ghost predicate SystemOk(s: System) {
    TableOk(s.l1) && TableOk(s.l2)
  }

  /** Writing a dirty L1 victim back to L2. */
  function WriteBack(l2: Cache, v: Victim): (r: Cache)
    requires TableOk(l2)
    ensures TableOk(r) && r.geo == l2.geo && r.accessTime == l2.accessTime
  {
    if VictimDirty(v) then Seek(l2, v.addr, true, true).0 else l2
  }

  /** L1 once the block that L2 drops to make room has left it. */
  function Invalidated(s: System, a: Access): (r: Cache)
    requires SystemOk(s)
    ensures TableOk(r) && r.geo == s.l1.geo && r.accessTime == s.l1.accessTime
  {
    var v := AddAddress(s.l2, a.addr).1;
    if v.Victim? then Remove(s.l1, v.addr) else s.l1
  }

  /** Bringing a missing block into both levels: L2's victim is removed from L1
      first, and a written block becomes dirty in L1. */
  function Fill(s: System, a: Access): (r: System)
    requires SystemOk(s)
    ensures SystemOk(r)
  {
    var l2 := AddAddress(s.l2, a.addr).0;
    var (l1, v1) := AddAddress(Invalidated(s, a), a.addr);
    var l1' := if a.write then MarkDirty(l1, a.addr, true) else l1;
    System(l1', WriteBack(l2, v1))
  }

  /** Bringing a block held by L2 into L1; a write moves its dirty bit to L1. */
  function Promote(s: System, a: Access): (r: System)
    requires SystemOk(s)
    ensures SystemOk(r)
  {
    var (l1, v1) := AddAddress(s.l1, a.addr);
    var l1' := if a.write then MarkDirty(l1, a.addr, true) else l1;
    var l2 := if a.write then MarkDirty(s.l2, a.addr, false) else s.l2;
    System(l1', WriteBack(l2, v1))
  }

  /** A missing block is placed in L1. */
  predicate Allocates(p: Params, a: Access) {
    !a.write || p.wrAlloc
  }

  /** handle_line: the new system and the cycles of the access. */
  function HandleLine(p: Params, s: System, a: Access): (r: (System, nat))
    requires SystemOk(s)
    ensures SystemOk(r.0)
  {
    var (l1, hit1) := Seek(s.l1, a.addr, a.write, false);
    if hit1 then (System(l1, s.l2), l1.accessTime)
    else
      var (l2, hit2) := Seek(s.l2, a.addr, a.write, false);
      if hit2 then
        (if Allocates(p, a) then Promote(System(l1, l2), a) else System(l1, l2),
         l1.accessTime + l2.accessTime)
      else
        (if Allocates(p, a) then Fill(System(l1, l2), a) else System(l1, l2),
         l1.accessTime + l2.accessTime + p.memCyc)
  }

  // ---------- the victims of one access ----------

  /** The system after the lookups of an access that misses L1. */
  function LookedUp(s: System, a: Access): (r: System)
    requires SystemOk(s)
    ensures SystemOk(r)
  {
    System(Seek(s.l1, a.addr, a.write, false).0, Seek(s.l2, a.addr, a.write, false).0)
  }

  predicate HitsL1(s: System, a: Access)
    requires SystemOk(s)
  {
    Seek(s.l1, a.addr, a.write, false).1
  }

  predicate HitsL2(s: System, a: Access)
    requires SystemOk(s)
  {
    Seek(s.l2, a.addr, a.write, false).1
  }

  /** The block that L2 drops during an access. */
  function L2Victim(p: Params, s: System, a: Access): Victim
    requires SystemOk(s)
  {
    if HitsL1(s, a) || HitsL2(s, a) || !Allocates(p, a) then NoVictim
    else AddAddress(LookedUp(s, a).l2, a.addr).1
  }

  /** L1 when an access that missed it places its block there. */
  function L1AtInsertion(s: System, a: Access): (r: Cache)
    requires SystemOk(s)
    ensures TableOk(r) && r.geo == s.l1.geo
  {
    if HitsL2(s, a) then LookedUp(s, a).l1 else Invalidated(LookedUp(s, a), a)
  }

  /** The block that L1 drops during an access; it is written back if dirty. */
  function L1Victim(p: Params, s: System, a: Access): Victim
    requires SystemOk(s)
  {
    if HitsL1(s, a) || !Allocates(p, a) then NoVictim
    else AddAddress(L1AtInsertion(s, a), a.addr).1
  }

  /** L2 when an access that placed its block in L1 writes back L1's victim. */
  function L2AtWriteBack(s: System, a: Access): (r: Cache)
    requires SystemOk(s)
    ensures TableOk(r) && r.geo == s.l2.geo
  {
    var l2 := LookedUp(s, a).l2;
    if !HitsL2(s, a) then AddAddress(l2, a.addr).0
    else if a.write then MarkDirty(l2, a.addr, false)
    else l2
  }

  // ---------- the invariant ----------

  /** Every block in L1 is in L2. */
  ghost predicate Inclusive(s: System)
    requires SystemOk(s)
  {
    forall b: nat :: Holds(s.l1, b) ==> Holds(s.l2, b)
  }

  ghost predicate Valid(s: System) {
    && CacheOk(s.l1) && CacheOk(s.l2) && s.l1.geo.offsetBits == s.l2.geo.offsetBits
    && Inclusive(s)
  }

  function BlockOf(s: System, a: Access): nat {
    Block(s.l2.geo, a.addr)
  }

  /** Dirty in either level. */
  ghost predicate Dirty(s: System, b: nat)
    requires SystemOk(s)
  {
    DirtyAt(s.l1, b) || DirtyAt(s.l2, b)
  }

  /** What one access does to the blocks and their dirtiness. */
  ghost predicate Follows(s: System, a: Access, r: System)
    requires SystemOk(s) && SystemOk(r)
  {
    var blk := BlockOf(s, a);
    && r.l1.geo == s.l1.geo && r.l2.geo == s.l2.geo
    && (forall b: nat :: Holds(r.l2, b) ==> Holds(s.l2, b) || b == blk)
    && (forall b: nat :: Holds(r.l2, b) ==>
          (Dirty(r, b) <==> (Holds(s.l2, b) && Dirty(s, b)) || (a.write && b == blk)))
  }

  /** A written-back victim is dirty in L2. */
  ghost predicate WrittenBack(l2: Cache, v: Victim, r: Cache)
    requires TableOk(l2) && TableOk(r)
  {
    && CacheOk(r) && r.geo == l2.geo
    && (forall b: nat :: Holds(r, b) <==> Holds(l2, b))
    && (forall b: nat :: DirtyAt(r, b) <==> DirtyAt(l2, b) || (VictimDirty(v) && b == Block(l2.geo, v.addr)))
  }

  lemma WriteBackIs(l2: Cache, v: Victim)
    requires CacheOk(l2) && (VictimDirty(v) ==> Holds(l2, Block(l2.geo, v.addr)))
    ensures WrittenBack(l2, v, WriteBack(l2, v))
  {
    if VictimDirty(v) {
      SeekIs(l2, v.addr, true, true);
    }
  }

  lemma BlocksAgree(g: Geometry, h: Geometry, addr: nat)
    requires g.offsetBits == h.offsetBits
    ensures Block(g, addr) == Block(h, addr)
  {
  }

  /** Placing a block of L2 into L1, its dirty bit moving up or staying. */
  lemma PlaceBlocks(s: System, a: Access, l1: Cache, v1: Victim, l1': Cache, l2: Cache, r2: Cache)
    requires Valid(s) && !Holds(s.l1, BlockOf(s, a)) && Holds(s.l2, BlockOf(s, a))
    requires TableOk(l1) && TableOk(l1') && TableOk(l2) && TableOk(r2)
    requires Added(s.l1, BlockOf(s, a), l1, v1)
    requires if a.write then Marked(l1, BlockOf(s, a), true, l1') else l1' == l1
    requires l2 == s.l2 || (a.write && Marked(s.l2, BlockOf(s, a), false, l2))
    requires WrittenBack(l2, v1, r2)
    ensures Valid(System(l1', r2)) && Follows(s, a, System(l1', r2))
    ensures forall b: nat :: Holds(r2, b) <==> Holds(s.l2, b)
  {
    if v1.Victim? {
      BlocksAgree(s.l1.geo, s.l2.geo, v1.addr);
    }
    forall b: nat | Holds(r2, b)
      ensures Dirty(System(l1', r2), b) <==> Dirty(s, b) || (a.write && b == BlockOf(s, a))
    {
      assert DirtyAt(l1', b) <==> (DirtyAt(s.l1, b) && !Drops(s.l1.geo, v1, b)) || (a.write && b == BlockOf(s, a));
    }
  }

  lemma PromoteFollows(s: System, a: Access)
    requires Valid(s) && !Holds(s.l1, BlockOf(s, a)) && Holds(s.l2, BlockOf(s, a))
    ensures var r := Promote(s, a); Valid(r) && Follows(s, a, r)
  {
    var (l1, v1) := AddAddress(s.l1, a.addr);
    AddIs(s.l1, a.addr);
    MarkBlockIs(l1, a.addr, true);
    MarkBlockIs(s.l2, a.addr, false);
    var l1' := if a.write then MarkDirty(l1, a.addr, true) else l1;
    var l2 := if a.write then MarkDirty(s.l2, a.addr, false) else s.l2;
    WriteBackIs(l2, v1);
    PlaceBlocks(s, a, l1, v1, l1', l2, WriteBack(l2, v1));
  }

  /** Making room in L2: its victim leaves L1 too, so inclusion survives. */
  lemma EvictBlocks(s: System, a: Access, l2: Cache, v2: Victim, l1: Cache)
    requires Valid(s) && !Holds(s.l1, BlockOf(s, a)) && !Holds(s.l2, BlockOf(s, a))
    requires TableOk(l2) && TableOk(l1)
    requires Added(s.l2, BlockOf(s, a), l2, v2)
    requires if v2.Victim? then Removed(s.l1, Block(s.l1.geo, v2.addr), l1) else l1 == s.l1
    ensures Valid(System(l1, l2)) && Follows(s, a.(write := false), System(l1, l2))
    ensures !Holds(l1, BlockOf(s, a)) && Holds(l2, BlockOf(s, a))
  {
    if v2.Victim? {
      BlocksAgree(s.l1.geo, s.l2.geo, v2.addr);
    }
  }

  lemma FillFollows(s: System, a: Access)
    requires Valid(s) && !Holds(s.l1, BlockOf(s, a)) && !Holds(s.l2, BlockOf(s, a))
    ensures var r := Fill(s, a); Valid(r) && Follows(s, a, r)
  {
    var (l2, v2) := AddAddress(s.l2, a.addr);
    AddIs(s.l2, a.addr);
    var l1 := Invalidated(s, a);
    if v2.Victim? {
      RemoveBlockIs(s.l1, v2.addr);
    }
    EvictBlocks(s, a, l2, v2, l1);
    var s' := System(l1, l2);
    var (l1', v1) := AddAddress(l1, a.addr);
    AddIs(l1, a.addr);
    MarkBlockIs(l1', a.addr, true);
    var l1'' := if a.write then MarkDirty(l1', a.addr, true) else l1';
    WriteBackIs(l2, v1);
    PlaceBlocks(s', a, l1', v1, l1'', l2, WriteBack(l2, v1));
    FollowsTwice(s, a.(write := false), s', a, Fill(s, a));
  }

  /** The two lookups that miss L1 change nothing but L2's dirty bit. */
  lemma LookupBlocks(s: System, a: Access, l1: Cache, l2: Cache)
    requires Valid(s) && TableOk(l1) && TableOk(l2) && !Holds(s.l1, BlockOf(s, a))
    requires Sought(s.l1, BlockOf(s, a), a.write, l1) && Sought(s.l2, BlockOf(s, a), a.write, l2)
    ensures Valid(System(l1, l2)) && Follows(s, a, System(l1, l2)) && !Holds(l1, BlockOf(s, a))
  {
  }

  lemma HitBlocks(s: System, a: Access, l1: Cache)
    requires Valid(s) && TableOk(l1) && Holds(s.l1, BlockOf(s, a))
    requires Sought(s.l1, BlockOf(s, a), a.write, l1)
    ensures Valid(System(l1, s.l2)) && Follows(s, a, System(l1, s.l2))
  {
  }

  /** Two steps of one access, of which the second keeps L2's blocks. */
  lemma FollowsTwice(s: System, a: Access, r: System, a': Access, q: System)
    requires Valid(s) && Valid(r) && Valid(q) && Follows(s, a, r) && Follows(r, a', q)
    requires a.addr == a'.addr && (a.write ==> a'.write)
    requires forall b: nat :: Holds(q.l2, b) ==> Holds(r.l2, b)
    ensures Follows(s, a', q)
  {
  }

  /** The same when the first step keeps them. */
  lemma FollowsAfterLookup(s: System, a: Access, r: System, q: System)
    requires Valid(s) && Valid(r) && Valid(q) && Follows(s, a, r) && Follows(r, a, q)
    requires forall b: nat :: Holds(r.l2, b) <==> Holds(s.l2, b)
    ensures Follows(s, a, q)
  {
  }

  /** One access keeps the system valid and tracks blocks and dirtiness exactly. */
  lemma HandleLineFollows(p: Params, s: System, a: Access)
    requires Valid(s)
    ensures var r := HandleLine(p, s, a).0; Valid(r) && Follows(s, a, r)
  {
    BlocksAgree(s.l1.geo, s.l2.geo, a.addr);
    var (l1, hit1) := Seek(s.l1, a.addr, a.write, false);
    SeekIs(s.l1, a.addr, a.write, false);
    if hit1 {
      HitBlocks(s, a, l1);
    } else {
      var (l2, hit2) := Seek(s.l2, a.addr, a.write, false);
      SeekIs(s.l2, a.addr, a.write, false);
      LookupBlocks(s, a, l1, l2);
      var s' := System(l1, l2);
      if Allocates(p, a) {
        if hit2 {
          PromoteFollows(s', a);
          FollowsAfterLookup(s, a, s', Promote(s', a));
        } else {
          FillFollows(s', a);
          FollowsAfterLookup(s, a, s', Fill(s', a));
        }
      }
    }
  }
}
