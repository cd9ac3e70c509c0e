/** The dirty bits of each level on its own: what one access does to them, and
    which writes they stand for in every reachable state. */
module CacheDirty {
  import opened Bits
  import opened CacheModel
  import opened CacheBlocks
  import opened CacheSystem
  import opened CacheTraces

  /** Only held blocks are dirty. */
  lemma DirtyIsHeld(c: Cache, b: nat)
    requires TableOk(c) && DirtyAt(c, b)
    ensures Holds(c, b)
  {
  }

  // ---------- one access ----------

  /** L1 keeps the dirty bits of the blocks it keeps, and a written block it
      holds becomes dirty. */
  ghost predicate L1DirtyFollows(s: System, a: Access, r: System)
    requires SystemOk(s) && SystemOk(r)
  {
    forall b: nat :: DirtyAt(r.l1, b) <==> Holds(r.l1, b) && (DirtyAt(s.l1, b) || (a.write && b == BlockOf(s, a)))
  }

  /** L2 keeps its dirty bits too, and takes over those of the blocks that leave
      L1; a write that misses L1 dirties L2 only if L1 does not take the block. */
  ghost predicate L2DirtyFollows(s: System, a: Access, r: System)
    requires SystemOk(s) && SystemOk(r)
  {
    forall b: nat :: DirtyAt(r.l2, b) <==> Holds(r.l2, b) && L2Dirtied(s, a, r, b)
  }

  ghost predicate L2Dirtied(s: System, a: Access, r: System, b: nat)
    requires SystemOk(s) && SystemOk(r)
  {
    if a.write && b == BlockOf(s, a) && !Holds(s.l1, b) then !Holds(r.l1, b)
    else DirtyAt(s.l2, b) || (DirtyAt(s.l1, b) && !Holds(r.l1, b))
  }

  /** Placing a block of L2 in L1: l2 has let go of the dirty bit of a written
      block, and r2 takes the victim's. */
  lemma PlaceDirty(s: System, a: Access, l1: Cache, v: Victim, l1': Cache, l2: Cache, r2: Cache)
    requires Valid(s) && !Holds(s.l1, BlockOf(s, a)) && Holds(s.l2, BlockOf(s, a))
    requires TableOk(l1) && TableOk(l1') && TableOk(l2) && TableOk(r2)
    requires Added(s.l1, BlockOf(s, a), l1, v)
    requires if a.write then Marked(l1, BlockOf(s, a), true, l1') else l1' == l1
    requires l2.geo == s.l2.geo && forall b: nat :: Holds(l2, b) <==> Holds(s.l2, b)
    requires forall b: nat :: DirtyAt(l2, b) <==> DirtyAt(s.l2, b) && !(a.write && b == BlockOf(s, a))
    requires WrittenBack(l2, v, r2)
    ensures L1DirtyFollows(s, a, System(l1', r2)) && L2DirtyFollows(s, a, System(l1', r2))
  {
    var r := System(l1', r2);
    if v.Victim? {
      BlocksAgree(s.l1.geo, s.l2.geo, v.addr);
    }
    forall b: nat
      ensures Holds(l1', b) <==> b == BlockOf(s, a) || (Holds(s.l1, b) && !Drops(s.l1.geo, v, b))
      ensures DirtyAt(r2, b) <==> DirtyAt(l2, b) || (DirtyAt(s.l1, b) && Drops(s.l1.geo, v, b))
    {
    }
    forall b: nat
      ensures DirtyAt(r.l1, b) <==> Holds(r.l1, b) && (DirtyAt(s.l1, b) || (a.write && b == BlockOf(s, a)))
      ensures DirtyAt(r.l2, b) <==> Holds(r.l2, b) && L2Dirtied(s, a, r, b)
    {
      if DirtyAt(s.l1, b) {
        DirtyIsHeld(s.l1, b);
      }
      if DirtyAt(s.l2, b) {
        DirtyIsHeld(s.l2, b);
      }
    }
  }

  lemma PromoteDirty(s: System, a: Access)
    requires Valid(s) && !Holds(s.l1, BlockOf(s, a)) && Holds(s.l2, BlockOf(s, a))
    ensures L1DirtyFollows(s, a, Promote(s, a)) && L2DirtyFollows(s, a, Promote(s, a))
  {
    BlocksAgree(s.l1.geo, s.l2.geo, a.addr);
    var (l1, v) := AddAddress(s.l1, a.addr);
    AddIs(s.l1, a.addr);
    MarkBlockIs(l1, a.addr, true);
    MarkBlockIs(s.l2, a.addr, false);
    var l1' := if a.write then MarkDirty(l1, a.addr, true) else l1;
    var l2 := if a.write then MarkDirty(s.l2, a.addr, false) else s.l2;
    PromoteWriteBackHits(s, a, l2);
    WriteBackDirty(l2, v);
    PlaceDirty(s, a, l1, v, l1', l2, WriteBack(l2, v));
  }

  /** A write-back that hits dirties its block alone. */
  lemma WriteBackDirty(l2: Cache, v: Victim)
    requires CacheOk(l2) && (v.Victim? ==> Seek(l2, v.addr, true, true).1)
    ensures WrittenBack(l2, v, WriteBack(l2, v))
  {
    if v.Victim? {
      SeekIs(l2, v.addr, true, true);
    }
    WriteBackIs(l2, v);
  }

  lemma FillDirty(s: System, a: Access)
    requires Valid(s) && !Holds(s.l1, BlockOf(s, a)) && !Holds(s.l2, BlockOf(s, a))
    ensures L1DirtyFollows(s, a, Fill(s, a)) && L2DirtyFollows(s, a, Fill(s, a))
  {
    BlocksAgree(s.l1.geo, s.l2.geo, a.addr);
    var (l2, v2) := AddAddress(s.l2, a.addr);
    AddIs(s.l2, a.addr);
    if v2.Victim? {
      RemoveBlockIs(s.l1, v2.addr);
    }
    EvictBlocks(s, a, l2, v2, Invalidated(s, a));
    var s' := System(Invalidated(s, a), l2);
    var (l1, v1) := AddAddress(s'.l1, a.addr);
    AddIs(s'.l1, a.addr);
    MarkBlockIs(l1, a.addr, true);
    var l1' := if a.write then MarkDirty(l1, a.addr, true) else l1;
    FillWriteBackHits(s, a);
    WriteBackDirty(l2, v1);
    NotDirty(s.l2, BlockOf(s, a));
    PlaceDirty(s', a, l1, v1, l1', l2, WriteBack(l2, v1));
    EvictDirty(s, a, l2, v2, s', Fill(s, a));
  }

  lemma NotDirty(c: Cache, b: nat)
    requires TableOk(c) && !Holds(c, b)
    ensures !DirtyAt(c, b)
  {
    if DirtyAt(c, b) {
      DirtyIsHeld(c, b);
    }
  }

  /** The block that L2 has dropped is in neither level. */
  lemma EvictDirty(s: System, a: Access, l2: Cache, v2: Victim, s': System, r: System)
    requires Valid(s) && Valid(s') && Valid(r) && !Holds(s.l1, BlockOf(s, a)) && !Holds(s.l2, BlockOf(s, a))
    requires s'.l2 == l2 && Added(s.l2, BlockOf(s, a), l2, v2) && l2.geo == s.l2.geo
    requires if v2.Victim? then Removed(s.l1, Block(s.l1.geo, v2.addr), s'.l1) else s'.l1 == s.l1
    requires L1DirtyFollows(s', a, r) && L2DirtyFollows(s', a, r)
    requires forall b: nat :: Holds(r.l2, b) <==> Holds(s'.l2, b)
    ensures L1DirtyFollows(s, a, r) && L2DirtyFollows(s, a, r)
  {
    if v2.Victim? {
      BlocksAgree(s.l1.geo, s.l2.geo, v2.addr);
    }
    NotDirty(s.l1, BlockOf(s, a));
    NotDirty(s.l2, BlockOf(s, a));
    forall b: nat
      ensures DirtyAt(r.l1, b) <==> Holds(r.l1, b) && (DirtyAt(s.l1, b) || (a.write && b == BlockOf(s, a)))
      ensures DirtyAt(r.l2, b) <==> Holds(r.l2, b) && L2Dirtied(s, a, r, b)
    {
      assert Drops(s.l2.geo, v2, b) && b != BlockOf(s, a) ==> !Holds(r.l2, b) && !Holds(r.l1, b);
    }
  }

  /** What an access does to the dirty bits of each level. */
  lemma DirtyAfter(p: Params, s: System, a: Access)
    requires Valid(s)
    ensures var r := HandleLine(p, s, a).0;
            && L1DirtyFollows(s, a, r) && L2DirtyFollows(s, a, r)
            && (Holds(s.l1, BlockOf(s, a)) ==> Holds(r.l1, BlockOf(s, a)))
  {
    var s' := LookedUp(s, a);
    BlocksAgree(s.l1.geo, s.l2.geo, a.addr);
    SeekIs(s.l1, a.addr, a.write, false);
    SeekIs(s.l2, a.addr, a.write, false);
    if !HitsL1(s, a) {
      LookupBlocks(s, a, s'.l1, s'.l2);
      if Allocates(p, a) {
        if HitsL2(s, a) {
          PromoteDirty(s', a);
        } else {
          FillDirty(s', a);
        }
      }
    }
  }

  // ---------- L1 over a run ----------

  ghost predicate InL1(h: seq<Moment>, k: nat, b: nat)
    requires k < |h|
  {
    SystemOk(h[k].sys) && Holds(h[k].sys.l1, b)
  }

  ghost predicate InL1Since(h: seq<Moment>, m: nat, n: nat, b: nat)
    requires n < |h|
  {
    forall k :: m <= k <= n ==> InL1(h, k, b)
  }

  /** Some access wrote block b, and b has been in L1 ever since. */
  ghost predicate WrittenInL1(u: Setup, trace: seq<Access>, h: seq<Moment>, n: nat, b: nat)
    requires n <= |trace| && n < |h|
  {
    exists j :: 0 <= j < n && Writes(u, trace[j], b) && InL1Since(h, j + 1, n, b)
  }

  lemma WrittenInL1Step(u: Setup, trace: seq<Access>, h: seq<Moment>, n: nat, b: nat)
    requires 0 < n <= |trace| && n < |h| && InL1(h, n, b)
    ensures WrittenInL1(u, trace, h, n, b) <==>
            Writes(u, trace[n - 1], b) || (InL1(h, n - 1, b) && WrittenInL1(u, trace, h, n - 1, b))
  {
    if Writes(u, trace[n - 1], b) {
      assert InL1Since(h, (n - 1) + 1, n, b);
    } else if WrittenInL1(u, trace, h, n, b) {
      var j :| 0 <= j < n && Writes(u, trace[j], b) && InL1Since(h, j + 1, n, b);
      assert InL1Since(h, j + 1, n - 1, b);
    }
    if InL1(h, n - 1, b) && WrittenInL1(u, trace, h, n - 1, b) {
      WrittenInL1Kept(u, trace, h, n, b);
    }
  }

  lemma WrittenInL1Kept(u: Setup, trace: seq<Access>, h: seq<Moment>, n: nat, b: nat)
    requires 0 < n <= |trace| && n < |h| && InL1(h, n, b) && WrittenInL1(u, trace, h, n - 1, b)
    ensures WrittenInL1(u, trace, h, n, b)
  {
    var j :| 0 <= j < n - 1 && Writes(u, trace[j], b) && InL1Since(h, j + 1, n - 1, b);
    assert InL1Since(h, j + 1, n, b);
  }

  /** One access of a run, block by block. */
  lemma RunDirtyAfter(u: Setup, trace: seq<Access>, h: seq<Moment>, i: nat)
    requires IsRun(u, trace, h) && i < |trace|
    ensures Valid(h[i].sys) && Valid(h[i + 1].sys) && BlockOf(h[i].sys, trace[i]) == Block(u.g2, trace[i].addr)
    ensures L1DirtyFollows(h[i].sys, trace[i], h[i + 1].sys) && L2DirtyFollows(h[i].sys, trace[i], h[i + 1].sys)
    ensures Holds(h[i].sys.l1, BlockOf(h[i].sys, trace[i])) ==> Holds(h[i + 1].sys.l1, BlockOf(h[i].sys, trace[i]))
  {
    AlwaysValid(u, trace, h, i);
    AlwaysValid(u, trace, h, i + 1);
    assert StepsAt(u, trace, h, i);
    DirtyAfter(u.p, h[i].sys, trace[i]);
  }

  /** A block in L1 is dirty there if and only if it has been written since it
      was last brought into L1. */
  lemma {:induction false} L1DirtyIsWritten(u: Setup, trace: seq<Access>, h: seq<Moment>, n: nat, b: nat)
    requires IsRun(u, trace, h) && n < |h| && InL1(h, n, b)
    ensures DirtyAt(h[n].sys.l1, b) <==> WrittenInL1(u, trace, h, n, b)
  {
    if n > 0 {
      RunDirtyAfter(u, trace, h, n - 1);
      WrittenInL1Step(u, trace, h, n, b);
      if InL1(h, n - 1, b) {
        L1DirtyIsWritten(u, trace, h, n - 1, b);
      } else {
        NotDirty(h[n - 1].sys.l1, b);
      }
    }
  }

  // ---------- L2 over a run ----------

  /** Access j leaves b out of L1 and hands written data of b to L2: it writes b
      itself, or b leaves L1 having been written there. */
  ghost predicate ReachesL2(u: Setup, trace: seq<Access>, h: seq<Moment>, j: nat, b: nat)
    requires j < |trace| && j + 1 < |h|
  {
    !InL1(h, j + 1, b) && (Writes(u, trace[j], b) || (InL1(h, j, b) && WrittenInL1(u, trace, h, j, b)))
  }

  /** Access k writes b and brings it into L1. */
  ghost predicate MovesUp(u: Setup, trace: seq<Access>, h: seq<Moment>, k: nat, b: nat)
    requires k < |trace| && k + 1 < |h|
  {
    Writes(u, trace[k], b) && !InL1(h, k, b) && InL1(h, k + 1, b)
  }

  ghost predicate NotMovedUp(u: Setup, trace: seq<Access>, h: seq<Moment>, m: nat, n: nat, b: nat)
    requires n <= |trace| && n < |h|
  {
    forall k :: m <= k < n ==> !MovesUp(u, trace, h, k, b)
  }

  /** Written data of b has reached L2, and b has stayed there since without
      being moved up by a write. */
  ghost predicate WrittenToL2(u: Setup, trace: seq<Access>, h: seq<Moment>, n: nat, b: nat)
    requires n <= |trace| && n < |h|
  {
    exists j :: 0 <= j < n && ReachesL2(u, trace, h, j, b) && HeldSince(h, j + 1, n, b)
                && NotMovedUp(u, trace, h, j + 1, n, b)
  }

  lemma WrittenToL2Step(u: Setup, trace: seq<Access>, h: seq<Moment>, n: nat, b: nat)
    requires 0 < n <= |trace| && n < |h| && HeldAt(h, n, b)
    ensures WrittenToL2(u, trace, h, n, b) <==>
            ReachesL2(u, trace, h, n - 1, b)
            || (HeldAt(h, n - 1, b) && WrittenToL2(u, trace, h, n - 1, b) && !MovesUp(u, trace, h, n - 1, b))
  {
    if ReachesL2(u, trace, h, n - 1, b) {
      assert HeldSince(h, (n - 1) + 1, n, b) && NotMovedUp(u, trace, h, (n - 1) + 1, n, b);
    } else if WrittenToL2(u, trace, h, n, b) {
      var j :| 0 <= j < n && ReachesL2(u, trace, h, j, b) && HeldSince(h, j + 1, n, b)
               && NotMovedUp(u, trace, h, j + 1, n, b);
      assert HeldSince(h, j + 1, n - 1, b) && NotMovedUp(u, trace, h, j + 1, n - 1, b);
    }
    if HeldAt(h, n - 1, b) && WrittenToL2(u, trace, h, n - 1, b) && !MovesUp(u, trace, h, n - 1, b) {
      WrittenToL2Kept(u, trace, h, n, b);
    }
  }

  lemma WrittenToL2Kept(u: Setup, trace: seq<Access>, h: seq<Moment>, n: nat, b: nat)
    requires 0 < n <= |trace| && n < |h| && HeldAt(h, n, b)
    requires WrittenToL2(u, trace, h, n - 1, b) && !MovesUp(u, trace, h, n - 1, b)
    ensures WrittenToL2(u, trace, h, n, b)
  {
    var j :| 0 <= j < n - 1 && ReachesL2(u, trace, h, j, b) && HeldSince(h, j + 1, n - 1, b)
             && NotMovedUp(u, trace, h, j + 1, n - 1, b);
    assert HeldSince(h, j + 1, n, b) && NotMovedUp(u, trace, h, j + 1, n, b);
  }

  lemma L2DirtyStep(u: Setup, trace: seq<Access>, h: seq<Moment>, n: nat, b: nat)
    requires IsRun(u, trace, h) && 0 < n < |h| && HeldAt(h, n, b)
    ensures SystemOk(h[n - 1].sys)
    ensures DirtyAt(h[n].sys.l2, b) <==>
            ReachesL2(u, trace, h, n - 1, b)
            || (DirtyAt(h[n - 1].sys.l2, b) && !MovesUp(u, trace, h, n - 1, b))
  {
    RunDirtyAfter(u, trace, h, n - 1);
    if InL1(h, n - 1, b) {
      L1DirtyIsWritten(u, trace, h, n - 1, b);
    } else {
      NotDirty(h[n - 1].sys.l1, b);
    }
    assert DirtyAt(h[n].sys.l2, b) <==> L2Dirtied(h[n - 1].sys, trace[n - 1], h[n].sys, b);
  }

  /** A block in L2 is dirty there if and only if written data of it has reached
      L2 since it was brought in, and no write has moved it up to L1 after that. */
  lemma {:induction false} L2DirtyIsWritten(u: Setup, trace: seq<Access>, h: seq<Moment>, n: nat, b: nat)
    requires IsRun(u, trace, h) && n < |h| && HeldAt(h, n, b)
    ensures DirtyAt(h[n].sys.l2, b) <==> WrittenToL2(u, trace, h, n, b)
  {
    if n > 0 {
      L2DirtyStep(u, trace, h, n, b);
      WrittenToL2Step(u, trace, h, n, b);
      if HeldAt(h, n - 1, b) {
        L2DirtyIsWritten(u, trace, h, n - 1, b);
      } else {
        NotDirty(h[n - 1].sys.l2, b);
      }
    }
  }

  /** A write miss that allocates leaves the block dirty in L1 and clean in L2. */
  lemma WriteMissDirties(u: Setup, trace: seq<Access>, h: seq<Moment>, i: nat)
    requires IsRun(u, trace, h) && i < |trace| && trace[i].write && u.p.wrAlloc
    requires !InL1(h, i, Block(u.g2, trace[i].addr))
    ensures SystemOk(h[i + 1].sys)
    ensures DirtyAt(h[i + 1].sys.l1, Block(u.g2, trace[i].addr))
    ensures !DirtyAt(h[i + 1].sys.l2, Block(u.g2, trace[i].addr))
  {
    RunDirtyAfter(u, trace, h, i);
    assert StepsAt(u, trace, h, i);
    ContentsAfter(u.p, h[i].sys, trace[i]);
  }
}
