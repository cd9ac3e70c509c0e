/** Results over every trace of accesses, from empty caches. */
module CacheTraces {
  import opened Bits
  import opened CacheModel
  import opened CacheBlocks
  import opened CacheSystem

  // ---------- geometry and empty caches ----------

  /** Sizes in bits: at least one set, a set and block width within a word, and
      a number of blocks that is an int. */
  predicate SizesOk(size: nat, waysBits: nat, blockSize: nat) {
    blockSize + waysBits <= size && 1 <= size - waysBits < 32 && size - blockSize < 31
  }

  /** The bit widths the constructor computes. */
  function MakeGeometry(size: nat, waysBits: nat, blockSize: nat): Geometry
    requires SizesOk(size, waysBits, blockSize)
  {
    var ways := Pow2(waysBits);
    Pow2Quotient(size, blockSize, waysBits);
    var sets := Pow2(size) / Pow2(blockSize) / ways;
    var setBits := Log2(sets);
    Pow2Quotient(size, blockSize, waysBits);
    Geometry(blockSize, setBits, ADDRESS_SIZE - setBits - blockSize, ways)
  }

  lemma Pow2Quotient(size: nat, blockSize: nat, waysBits: nat)
    requires blockSize + waysBits <= size
    ensures Pow2(size) / Pow2(blockSize) / Pow2(waysBits) == Pow2(size - blockSize - waysBits)
    ensures Log2(Pow2(size - blockSize - waysBits)) == size - blockSize - waysBits
  {
    Pow2Adds(blockSize, size - blockSize);
    DivIs(Pow2(size), Pow2(blockSize), Pow2(size - blockSize), 0);
    Pow2Adds(waysBits, size - blockSize - waysBits);
    DivIs(Pow2(size - blockSize), Pow2(waysBits), Pow2(size - blockSize - waysBits), 0);
    Log2OfPow2(size - blockSize - waysBits);
  }

  /** The set width is what is left of the size after block and way bits. */
  lemma GeometryIs(size: nat, waysBits: nat, blockSize: nat)
    requires SizesOk(size, waysBits, blockSize)
    ensures var g := MakeGeometry(size, waysBits, blockSize);
            && GeometryOk(g) && g.offsetBits == blockSize && g.setBits == size - blockSize - waysBits
            && Pow2(g.setBits) * g.ways * Pow2(g.offsetBits) == Pow2(size)
  {
    Pow2Quotient(size, blockSize, waysBits);
    var sets := size - blockSize - waysBits;
    Pow2Adds(sets, waysBits);
    Pow2Adds(sets + waysBits, blockSize);
  }

  function EmptyCache(g: Geometry, accessTime: nat): Cache {
    Cache(g, accessTime, seq(Pow2(g.setBits), _ => []), 0, 0)
  }

  function EmptySystem(g1: Geometry, t1: nat, g2: Geometry, t2: nat): (s: System)
    ensures SystemOk(s)
  {
    System(EmptyCache(g1, t1), EmptyCache(g2, t2))
  }

  lemma EmptyIsValid(g1: Geometry, t1: nat, g2: Geometry, t2: nat)
    requires GeometryOk(g1) && GeometryOk(g2) && g1.offsetBits == g2.offsetBits
    ensures Valid(EmptySystem(g1, t1, g2, t2))
    ensures forall b: nat :: !Holds(EmptySystem(g1, t1, g2, t2).l2, b)
  {
  }

  // ---------- runs ----------

  /** Caches of any two sizes with the same block size, and any parameters. */
  datatype Setup = Setup(p: Params, g1: Geometry, t1: nat, g2: Geometry, t2: nat)

  ghost predicate SetupOk(u: Setup) {
    GeometryOk(u.g1) && GeometryOk(u.g2) && u.g1.offsetBits == u.g2.offsetBits
  }

  /** The system between two accesses, and the access times summed so far. */
  datatype Moment = Moment(sys: System, sum: nat)

  /** Moment i + 1 comes from moment i by access i. */
  ghost predicate StepsAt(u: Setup, trace: seq<Access>, h: seq<Moment>, i: nat)
    requires i < |trace| && i + 1 < |h|
  {
    SystemOk(h[i].sys) &&
    var (s, time) := HandleLine(u.p, h[i].sys, trace[i]);
    h[i + 1] == Moment(s, h[i].sum + time)
  }

  /** h is the history of a trace run on empty caches. */
  ghost predicate IsRun(u: Setup, trace: seq<Access>, h: seq<Moment>) {
    && SetupOk(u) && |h| == |trace| + 1
    && h[0] == Moment(EmptySystem(u.g1, u.t1, u.g2, u.t2), 0)
    && (forall i {:trigger StepsAt(u, trace, h, i)} :: 0 <= i < |trace| ==> StepsAt(u, trace, h, i))
  }

  lemma StepFollows(u: Setup, trace: seq<Access>, h: seq<Moment>, i: nat)
    requires IsRun(u, trace, h) && i < |trace| && Valid(h[i].sys)
    ensures Valid(h[i + 1].sys) && Follows(h[i].sys, trace[i], h[i + 1].sys)
  {
    assert StepsAt(u, trace, h, i);
    HandleLineFollows(u.p, h[i].sys, trace[i]);
  }

  /** In every reachable state each set has at most `ways` entries with distinct
      tags, stored addresses belong to their set and tag, and L1 is within L2. */
  lemma {:induction false} AlwaysValid(u: Setup, trace: seq<Access>, h: seq<Moment>, n: nat)
    requires IsRun(u, trace, h) && n < |h|
    ensures Valid(h[n].sys) && h[n].sys.l1.geo == u.g1 && h[n].sys.l2.geo == u.g2
  {
    if n == 0 {
      EmptyIsValid(u.g1, u.t1, u.g2, u.t2);
    } else {
      AlwaysValid(u, trace, h, n - 1);
      StepFollows(u, trace, h, n - 1);
    }
  }

  ghost predicate HeldAt(h: seq<Moment>, k: nat, b: nat)
    requires k < |h|
  {
    SystemOk(h[k].sys) && Holds(h[k].sys.l2, b)
  }

  predicate Writes(u: Setup, a: Access, b: nat) {
    a.write && Block(u.g2, a.addr) == b
  }

  /** b has been in L2 ever since moment m, up to moment n. */
  ghost predicate HeldSince(h: seq<Moment>, m: nat, n: nat, b: nat)
    requires n < |h|
  {
    forall k :: m <= k <= n ==> HeldAt(h, k, b)
  }

  /** Some access wrote block b, and b has been in L2 ever since. */
  ghost predicate WrittenSinceFill(u: Setup, trace: seq<Access>, h: seq<Moment>, n: nat, b: nat)
    requires n <= |trace| && n < |h|
  {
    exists j :: 0 <= j < n && Writes(u, trace[j], b) && HeldSince(h, j + 1, n, b)
  }

  lemma WrittenStep(u: Setup, trace: seq<Access>, h: seq<Moment>, n: nat, b: nat)
    requires 0 < n <= |trace| && n < |h| && HeldAt(h, n, b)
    ensures WrittenSinceFill(u, trace, h, n, b) <==>
            Writes(u, trace[n - 1], b) || (HeldAt(h, n - 1, b) && WrittenSinceFill(u, trace, h, n - 1, b))
  {
    if Writes(u, trace[n - 1], b) {
      assert HeldSince(h, (n - 1) + 1, n, b);
    } else if WrittenSinceFill(u, trace, h, n, b) {
      var j :| 0 <= j < n && Writes(u, trace[j], b) && HeldSince(h, j + 1, n, b);
      assert HeldSince(h, j + 1, n - 1, b);
    }
    if HeldAt(h, n - 1, b) && WrittenSinceFill(u, trace, h, n - 1, b) {
      WrittenKept(u, trace, h, n, b);
    }
  }

  lemma WrittenKept(u: Setup, trace: seq<Access>, h: seq<Moment>, n: nat, b: nat)
    requires 0 < n <= |trace| && n < |h| && HeldAt(h, n, b) && WrittenSinceFill(u, trace, h, n - 1, b)
    ensures WrittenSinceFill(u, trace, h, n, b)
  {
    var j :| 0 <= j < n - 1 && Writes(u, trace[j], b) && HeldSince(h, j + 1, n - 1, b);
    assert HeldSince(h, j + 1, n, b);
  }

  lemma DirtyStep(u: Setup, trace: seq<Access>, h: seq<Moment>, n: nat, b: nat)
    requires IsRun(u, trace, h) && 0 < n < |h| && HeldAt(h, n, b)
    ensures SystemOk(h[n - 1].sys)
    ensures Dirty(h[n].sys, b) <==>
            Writes(u, trace[n - 1], b) || (HeldAt(h, n - 1, b) && Dirty(h[n - 1].sys, b))
  {
    AlwaysValid(u, trace, h, n - 1);
    StepFollows(u, trace, h, n - 1);
  }

  /** Dirty tracking is exact: a block in L2 is dirty in L1 or in L2 if and only
      if it has been written since it was last brought into L2. */
  lemma {:induction false} DirtyIsWritten(u: Setup, trace: seq<Access>, h: seq<Moment>, n: nat, b: nat)
    requires IsRun(u, trace, h) && n < |h| && HeldAt(h, n, b)
    ensures Dirty(h[n].sys, b) <==> WrittenSinceFill(u, trace, h, n, b)
  {
    if n == 0 {
      EmptyIsValid(u.g1, u.t1, u.g2, u.t2);
    } else {
      DirtyStep(u, trace, h, n, b);
      WrittenStep(u, trace, h, n, b);
      if HeldAt(h, n - 1, b) {
        DirtyIsWritten(u, trace, h, n - 1, b);
      }
    }
  }

  // ---------- write-backs ----------

  /** After a miss in both levels L1 drops a block that L2 has kept. */
  lemma FillWriteBackHits(s: System, a: Access)
    requires Valid(s) && !Holds(s.l1, BlockOf(s, a)) && !Holds(s.l2, BlockOf(s, a))
    ensures var v := AddAddress(Invalidated(s, a), a.addr).1;
            v.Victim? ==> Seek(AddAddress(s.l2, a.addr).0, v.addr, true, true).1
  {
    BlocksAgree(s.l1.geo, s.l2.geo, a.addr);
    var (l2, v2) := AddAddress(s.l2, a.addr);
    AddIs(s.l2, a.addr);
    var l1 := Invalidated(s, a);
    if v2.Victim? {
      RemoveBlockIs(s.l1, v2.addr);
    }
    EvictBlocks(s, a, l2, v2, l1);
    AddIs(l1, a.addr);
    var v := AddAddress(l1, a.addr).1;
    if v.Victim? {
      BlocksAgree(s.l1.geo, s.l2.geo, v.addr);
      SeekIs(l2, v.addr, true, true);
    }
  }

  /** After an L2 hit L1 drops a block that inclusion puts in L2. */
  lemma PromoteWriteBackHits(s: System, a: Access, l2: Cache)
    requires Valid(s) && !Holds(s.l1, BlockOf(s, a)) && Holds(s.l2, BlockOf(s, a))
    requires l2 == if a.write then MarkDirty(s.l2, a.addr, false) else s.l2
    ensures var v := AddAddress(s.l1, a.addr).1;
            v.Victim? ==> Seek(l2, v.addr, true, true).1
  {
    BlocksAgree(s.l1.geo, s.l2.geo, a.addr);
    AddIs(s.l1, a.addr);
    MarkBlockIs(s.l2, a.addr, false);
    var v := AddAddress(s.l1, a.addr).1;
    if v.Victim? {
      BlocksAgree(s.l1.geo, s.l2.geo, v.addr);
      SeekIs(l2, v.addr, true, true);
    }
  }

  /** Whatever block L1 drops during an access, its write-back finds it in L2. */
  lemma WriteBackHits(p: Params, s: System, a: Access)
    requires Valid(s)
    ensures var v, l2 := L1Victim(p, s, a), L2AtWriteBack(s, a);
            v.Victim? ==> HandleLine(p, s, a).0.l2 == WriteBack(l2, v) && Seek(l2, v.addr, true, true).1
  {
    if !HitsL1(s, a) && Allocates(p, a) {
      var s' := LookedUp(s, a);
      BlocksAgree(s.l1.geo, s.l2.geo, a.addr);
      SeekIs(s.l1, a.addr, a.write, false);
      SeekIs(s.l2, a.addr, a.write, false);
      LookupBlocks(s, a, s'.l1, s'.l2);
      if HitsL2(s, a) {
        PromoteWriteBackHits(s', a, L2AtWriteBack(s, a));
      } else {
        FillWriteBackHits(s', a);
      }
    }
  }

  /** Over any trace, every write-back of an L1 victim finds its block in L2. */
  lemma WriteBacksAlwaysHit(u: Setup, trace: seq<Access>, h: seq<Moment>, i: nat)
    requires IsRun(u, trace, h) && i < |trace|
    ensures SystemOk(h[i].sys)
    ensures var s, a := h[i].sys, trace[i];
            var v, l2 := L1Victim(u.p, s, a), L2AtWriteBack(s, a);
            v.Victim? ==> h[i + 1].sys.l2 == WriteBack(l2, v) && Seek(l2, v.addr, true, true).1
  {
    AlwaysValid(u, trace, h, i);
    assert StepsAt(u, trace, h, i);
    WriteBackHits(u.p, h[i].sys, trace[i]);
  }

  // ---------- the blocks held after an access ----------

  /** r holds what c holds, without the victims, and blk if it is placed. */
  ghost predicate ContentsAre(c: Cache, v: Victim, v': Victim, blk: nat, placed: bool, r: Cache)
    requires TableOk(c) && TableOk(r)
  {
    forall b: nat :: Holds(r, b) <==>
      (Holds(c, b) && !Drops(c.geo, v, b) && !Drops(c.geo, v', b)) || (b == blk && placed)
  }

  lemma PromoteContents(s: System, a: Access)
    requires Valid(s) && !Holds(s.l1, BlockOf(s, a)) && Holds(s.l2, BlockOf(s, a))
    ensures var r, v := Promote(s, a), AddAddress(s.l1, a.addr).1;
            && ContentsAre(s.l2, NoVictim, NoVictim, BlockOf(s, a), true, r.l2)
            && ContentsAre(s.l1, v, NoVictim, BlockOf(s, a), true, r.l1)
  {
    BlocksAgree(s.l1.geo, s.l2.geo, a.addr);
    var (l1, v) := AddAddress(s.l1, a.addr);
    AddIs(s.l1, a.addr);
    MarkBlockIs(l1, a.addr, true);
    MarkBlockIs(s.l2, a.addr, false);
    var l2 := if a.write then MarkDirty(s.l2, a.addr, false) else s.l2;
    PromoteWriteBackHits(s, a, l2);
    if v.Victim? {
      SeekIs(l2, v.addr, true, true);
    }
  }

  lemma FillContents(s: System, a: Access)
    requires Valid(s) && !Holds(s.l1, BlockOf(s, a)) && !Holds(s.l2, BlockOf(s, a))
    ensures var r, v1, v2 := Fill(s, a), AddAddress(Invalidated(s, a), a.addr).1, AddAddress(s.l2, a.addr).1;
            && ContentsAre(s.l2, NoVictim, v2, BlockOf(s, a), true, r.l2)
            && ContentsAre(s.l1, v1, v2, BlockOf(s, a), true, r.l1)
  {
    BlocksAgree(s.l1.geo, s.l2.geo, a.addr);
    var (l2, v2) := AddAddress(s.l2, a.addr);
    AddIs(s.l2, a.addr);
    if v2.Victim? {
      BlocksAgree(s.l1.geo, s.l2.geo, v2.addr);
      RemoveBlockIs(s.l1, v2.addr);
    }
    var (l1, v1) := AddAddress(Invalidated(s, a), a.addr);
    AddIs(Invalidated(s, a), a.addr);
    MarkBlockIs(l1, a.addr, true);
    FillWriteBackHits(s, a);
    if v1.Victim? {
      SeekIs(l2, v1.addr, true, true);
    }
  }

  /** Exactly which blocks each level holds after an access: besides the
      victims nothing goes, and L2's victim leaves both levels. */
  lemma ContentsAfter(p: Params, s: System, a: Access)
    requires Valid(s)
    ensures var r, v1, v2 := HandleLine(p, s, a).0, L1Victim(p, s, a), L2Victim(p, s, a);
            && ContentsAre(s.l2, NoVictim, v2, BlockOf(s, a), !a.write || p.wrAlloc, r.l2)
            && ContentsAre(s.l1, v1, v2, BlockOf(s, a), !a.write || p.wrAlloc, r.l1)
            && (HitsL1(s, a) ==> r.l2 == s.l2 && !v1.Victim? && !v2.Victim?)
  {
    var s' := LookedUp(s, a);
    BlocksAgree(s.l1.geo, s.l2.geo, a.addr);
    SeekIs(s.l1, a.addr, a.write, false);
    SeekIs(s.l2, a.addr, a.write, false);
    if !HitsL1(s, a) {
      LookupBlocks(s, a, s'.l1, s'.l2);
      if Allocates(p, a) {
        if HitsL2(s, a) {
          PromoteContents(s', a);
        } else {
          FillContents(s', a);
        }
      }
    }
  }

  // ---------- access times ----------

  lemma StepCounts(p: Params, s: System, a: Access)
    requires SystemOk(s)
    ensures var (r, time) := HandleLine(p, s, a);
            && r.l1.accessTime == s.l1.accessTime && r.l2.accessTime == s.l2.accessTime
            && r.l1.hits + r.l1.misses == s.l1.hits + s.l1.misses + 1
            && r.l2.hits + r.l2.misses - s.l2.hits - s.l2.misses == r.l1.misses - s.l1.misses
            && s.l1.misses <= r.l1.misses <= s.l1.misses + 1
            && s.l2.misses <= r.l2.misses <= s.l2.misses + 1
            && time == s.l1.accessTime
                       + (if r.l1.misses > s.l1.misses then s.l2.accessTime else 0)
                       + (if r.l2.misses > s.l2.misses then p.memCyc else 0)
  {
  }

  lemma CountsAt(u: Setup, trace: seq<Access>, h: seq<Moment>, i: nat)
    requires IsRun(u, trace, h) && i < |trace|
    ensures var s, r := h[i].sys, h[i + 1].sys;
            && r.l1.accessTime == s.l1.accessTime && r.l2.accessTime == s.l2.accessTime
            && r.l1.hits + r.l1.misses == s.l1.hits + s.l1.misses + 1
            && r.l2.hits + r.l2.misses - s.l2.hits - s.l2.misses == r.l1.misses - s.l1.misses
            && s.l1.misses <= r.l1.misses <= s.l1.misses + 1
            && s.l2.misses <= r.l2.misses <= s.l2.misses + 1
            && h[i + 1].sum == h[i].sum + s.l1.accessTime
                               + (if r.l1.misses > s.l1.misses then s.l2.accessTime else 0)
                               + (if r.l2.misses > s.l2.misses then u.p.memCyc else 0)
  {
    assert StepsAt(u, trace, h, i);
    StepCounts(u.p, h[i].sys, trace[i]);
  }

  lemma OneMore(n: nat, m: nat, t: nat)
    requires n <= m <= n + 1
    ensures m * t == n * t + if m > n then t else 0
  {
  }

  /** Every access is one L1 lookup, every L1 miss one L2 lookup, and the summed
      time charges each level once per lookup and memory once per L2 miss. */
  lemma {:induction false} AccessTimeIdentity(u: Setup, trace: seq<Access>, h: seq<Moment>, n: nat)
    requires IsRun(u, trace, h) && n < |h|
    ensures var s := h[n].sys;
            && s.l1.accessTime == u.t1 && s.l2.accessTime == u.t2
            && s.l1.hits + s.l1.misses == n
            && s.l2.hits + s.l2.misses == s.l1.misses
            && h[n].sum == n * u.t1 + s.l1.misses * u.t2 + s.l2.misses * u.p.memCyc
  {
    if n > 0 {
      AccessTimeIdentity(u, trace, h, n - 1);
      CountsAt(u, trace, h, n - 1);
      var s, r := h[n - 1].sys, h[n].sys;
      OneMore(n - 1, n, u.t1);
      OneMore(s.l1.misses, r.l1.misses, u.t2);
      OneMore(s.l2.misses, r.l2.misses, u.p.memCyc);
    }
  }
}
