/** Least-recently-used order: in every reachable state each set lists its
    blocks from the most to the least recently touched. */
module CacheRecency {
  import opened Bits
  import opened CacheModel
  import opened CacheBlocks
  import opened CacheSystem
  import opened CacheTraces

  /** The last of the first n positions of the log that holds b, or -1. */
  function LastBefore(log: seq<nat>, n: nat, b: nat): (r: int)
    requires n <= |log|
    ensures -1 <= r < n
    ensures r >= 0 ==> log[r] == b
    ensures forall k :: r < k < n ==> log[k] != b
  {
    if n == 0 then -1 else if log[n - 1] == b then n - 1 else LastBefore(log, n - 1, b)
  }

  /** The last position of b in a log of block numbers, or -1. */
  function Last(log: seq<nat>, b: nat): (r: int)
    ensures -1 <= r < |log|
    ensures r >= 0 ==> log[r] == b
    ensures forall k :: r < k < |log| ==> log[k] != b
  {
    LastBefore(log, |log|, b)
  }

  lemma LastOfLonger(log: seq<nat>, b: nat, x: nat)
    ensures Last(log + [b], x) == if x == b then |log| else Last(log, x)
  {
    var r, r' := Last(log, x), Last(log + [b], x);
    assert forall k :: 0 <= k < |log| ==> (log + [b])[k] == log[k];
    assert (log + [b])[|log|] == b;
    if r >= 0 {
      assert (log + [b])[r] == x;
    }
  }

  // ---------- one set ----------

  /** The entries are in strictly decreasing order of their last touch. */
  ghost predicate SetOrdered(g: Geometry, es: seq<Entry>, log: seq<nat>) {
    && (forall i :: 0 <= i < |es| ==> Last(log, Block(g, es[i].addr)) >= 0)
    && (forall i, j :: 0 <= i < j < |es| ==> Last(log, Block(g, es[i].addr)) > Last(log, Block(g, es[j].addr)))
  }

  ghost predicate Absent(g: Geometry, es: seq<Entry>, b: nat) {
    forall i :: 0 <= i < |es| ==> Block(g, es[i].addr) != b
  }

  lemma WithoutOrdered(g: Geometry, es: seq<Entry>, log: seq<nat>, p: nat)
    requires SetOrdered(g, es, log) && p < |es|
    ensures SetOrdered(g, Without(es, p), log) && Absent(g, Without(es, p), Block(g, es[p].addr))
  {
    var r := Without(es, p);
    assert forall k :: 0 <= k < |r| ==> r[k] == es[if k < p then k else k + 1];
  }

  lemma LongerOrdered(g: Geometry, es: seq<Entry>, log: seq<nat>, b: nat)
    requires SetOrdered(g, es, log) && Absent(g, es, b)
    ensures SetOrdered(g, es, log + [b])
  {
    forall i | 0 <= i < |es|
      ensures Last(log + [b], Block(g, es[i].addr)) == Last(log, Block(g, es[i].addr))
    {
      LastOfLonger(log, b, Block(g, es[i].addr));
    }
  }

  /** The block just touched goes to the front. */
  lemma FrontOrdered(g: Geometry, e: Entry, es: seq<Entry>, log: seq<nat>)
    requires SetOrdered(g, es, log) && Absent(g, es, Block(g, e.addr))
    requires |log| > 0 && log[|log| - 1] == Block(g, e.addr)
    ensures SetOrdered(g, [e] + es, log)
  {
    var r := [e] + es;
    assert forall k :: 0 <= k < |r| ==> r[k] == if k == 0 then e else es[k - 1];
    forall k | 0 <= k < |es|
      ensures Last(log, Block(g, es[k].addr)) < |log| - 1
    {
    }
  }

  lemma PrefixOrdered(g: Geometry, es: seq<Entry>, log: seq<nat>, n: nat)
    requires SetOrdered(g, es, log) && n <= |es|
    ensures SetOrdered(g, es[..n], log)
  {
  }

  // ---------- the operations ----------

  ghost predicate Ordered(c: Cache, log: seq<nat>) {
    forall k :: 0 <= k < |c.table| ==> SetOrdered(c.geo, c.table[k], log)
  }

  /** A block not in the table is absent from every set. */
  lemma NotHeldIsAbsent(c: Cache, b: nat, k: nat)
    requires CacheOk(c) && k < |c.table| && (k == SetOfBlock(c.geo, b) ==> !Holds(c, b))
    ensures Absent(c.geo, c.table[k], b)
  {
    var es := c.table[k];
    forall i | 0 <= i < |es|
      ensures Block(c.geo, es[i].addr) != b
    {
      assert SetOk(c.geo, k, es) && es[i] in es;
      SplitIs(c.geo, es[i].addr);
    }
  }

  lemma SeekOrdered(c: Cache, addr: nat, write: bool, writeback: bool, log: seq<nat>)
    requires CacheOk(c) && Ordered(c, log)
    ensures Ordered(Seek(c, addr, write, writeback).0, log + [Block(c.geo, addr)])
  {
    var g, s, t, b := c.geo, SetOf(c.geo, addr), TagOf(c.geo, addr), Block(c.geo, addr);
    var r := Seek(c, addr, write, writeback).0;
    SplitIs(g, addr);
    forall k | 0 <= k < |r.table|
      ensures SetOrdered(g, r.table[k], log + [b])
    {
      if k == s && Has(c.table[s], t) {
        var es := c.table[s];
        var p := IndexOf(es, t);
        assert SetOk(g, s, es) && es[p] in es;
        SplitIs(g, es[p].addr);
        SameBlock(g, b, Block(g, es[p].addr));
        WithoutOrdered(g, es, log, p);
        LongerOrdered(g, Without(es, p), log, b);
        FrontOrdered(g, es[p].(dirty := es[p].dirty || write), Without(es, p), log + [b]);
      } else {
        NotHeldIsAbsent(c, b, k);
        LongerOrdered(g, c.table[k], log, b);
      }
    }
  }

  lemma RemoveOrdered(c: Cache, addr: nat, log: seq<nat>)
    requires CacheOk(c) && Ordered(c, log)
    ensures Ordered(Remove(c, addr), log)
  {
    var s, t := SetOf(c.geo, addr), TagOf(c.geo, addr);
    if Has(c.table[s], t) {
      WithoutOrdered(c.geo, c.table[s], log, IndexOf(c.table[s], t));
    }
  }

  lemma MarkOrdered(c: Cache, addr: nat, dirty: bool, log: seq<nat>)
    requires CacheOk(c) && Ordered(c, log)
    ensures Ordered(MarkDirty(c, addr, dirty), log)
  {
    var s := SetOf(c.geo, addr);
    var es, r := c.table[s], MarkDirty(c, addr, dirty).table[s];
    MarkIs(es, TagOf(c.geo, addr), dirty);
    assert SetOk(c.geo, s, es);
    assert SetOrdered(c.geo, r, log);
  }

  lemma InsertOrdered(g: Geometry, es: seq<Entry>, e: Entry, ways: nat, log: seq<nat>)
    requires SetOrdered(g, es, log) && Absent(g, es, Block(g, e.addr))
    requires |log| > 0 && log[|log| - 1] == Block(g, e.addr)
    ensures SetOrdered(g, InsertInSet(es, e, ways), log)
  {
    FrontOrdered(g, e, es, log);
    PrefixOrdered(g, [e] + es, log, |es|);
  }

  /** The block being added has just been looked up. */
  lemma AddOrdered(c: Cache, addr: nat, log: seq<nat>)
    requires CacheOk(c) && Ordered(c, log) && !Holds(c, Block(c.geo, addr))
    requires |log| > 0 && log[|log| - 1] == Block(c.geo, addr)
    ensures Ordered(AddAddress(c, addr).0, log)
  {
    var g, s := c.geo, SetOf(c.geo, addr);
    NotHeldIsAbsent(c, Block(g, addr), s);
    assert SetOrdered(g, c.table[s], log);
    NewEntryBlock(g, addr);
    InsertOrdered(g, c.table[s], NewEntry(g, addr), g.ways, log);
    SetReplaced(c, s, InsertInSet(c.table[s], NewEntry(g, addr), g.ways), log);
  }

  lemma NewEntryBlock(g: Geometry, addr: nat)
    ensures Block(g, NewEntry(g, addr).addr) == Block(g, addr)
  {
  }

  lemma SetReplaced(c: Cache, s: nat, es: seq<Entry>, log: seq<nat>)
    requires Ordered(c, log) && s < |c.table| && SetOrdered(c.geo, es, log)
    ensures Ordered(c.(table := c.table[s := es]), log)
  {
  }

  lemma LastEntryIsLeastRecent(g: Geometry, es: seq<Entry>, log: seq<nat>, p: nat)
    requires SetOrdered(g, es, log) && p < |es|
    ensures p < |es| - 1 ==> Last(log, Block(g, es[|es| - 1].addr)) < Last(log, Block(g, es[p].addr))
  {
  }

  /** The victim of an insertion is the least recently touched block of its set. */
  lemma VictimIsLeastRecent(c: Cache, addr: nat, log: seq<nat>, b: nat)
    requires CacheOk(c) && Ordered(c, log) && AddAddress(c, addr).1.Victim?
    requires Holds(c, b) && SetOfBlock(c.geo, b) == SetOf(c.geo, addr)
    ensures var v := AddAddress(c, addr).1;
            Block(c.geo, v.addr) != b ==> Last(log, Block(c.geo, v.addr)) < Last(log, b)
  {
    var p := HeldPosition(c, b);
    VictimIsLast(c, addr);
    LastEntryIsLeastRecent(c.geo, c.table[SetOf(c.geo, addr)], log, p);
  }

  lemma HeldPosition(c: Cache, b: nat) returns (p: nat)
    requires CacheOk(c) && Holds(c, b)
    ensures var es := c.table[SetOfBlock(c.geo, b)]; p < |es| && Block(c.geo, es[p].addr) == b
  {
    var s := SetOfBlock(c.geo, b);
    var es := c.table[s];
    p := IndexOf(es, TagOfBlock(c.geo, b));
    assert SetOk(c.geo, s, es) && es[p] in es;
    SplitIs(c.geo, es[p].addr);
    SameBlock(c.geo, b, Block(c.geo, es[p].addr));
  }

  // ---------- the two levels ----------

  /** The blocks an access touches in L2, in order: the demand lookup after an
      L1 miss, then the write-back of a dirty L1 victim. */
  function L2Touches(p: Params, s: System, a: Access): seq<nat>
    requires SystemOk(s)
  {
    var v := L1Victim(p, s, a);
    if HitsL1(s, a) then []
    else [Block(s.l2.geo, a.addr)] + if VictimDirty(v) then [Block(s.l2.geo, v.addr)] else []
  }

  lemma WriteBackOrdered(l2: Cache, v: Victim, log: seq<nat>)
    requires CacheOk(l2) && Ordered(l2, log)
    ensures Ordered(WriteBack(l2, v), log + if VictimDirty(v) then [Block(l2.geo, v.addr)] else [])
  {
    if VictimDirty(v) {
      SeekOrdered(l2, v.addr, true, true, log);
    } else {
      assert log + [] == log;
    }
  }

  lemma PromoteOrdered(s: System, a: Access, log1: seq<nat>, log2: seq<nat>)
    requires Valid(s) && !Holds(s.l1, BlockOf(s, a)) && Ordered(s.l1, log1) && Ordered(s.l2, log2)
    requires |log1| > 0 && log1[|log1| - 1] == BlockOf(s, a)
    ensures var r, v := Promote(s, a), AddAddress(s.l1, a.addr).1;
            && Ordered(r.l1, log1)
            && Ordered(r.l2, log2 + if VictimDirty(v) then [Block(s.l2.geo, v.addr)] else [])
  {
    BlocksAgree(s.l1.geo, s.l2.geo, a.addr);
    var (l1, v) := AddAddress(s.l1, a.addr);
    AddIs(s.l1, a.addr);
    AddOrdered(s.l1, a.addr, log1);
    MarkOrdered(l1, a.addr, true, log1);
    MarkBlockIs(s.l2, a.addr, false);
    MarkOrdered(s.l2, a.addr, false, log2);
    WriteBackOrdered(if a.write then MarkDirty(s.l2, a.addr, false) else s.l2, v, log2);
  }

  lemma FillOrdered(s: System, a: Access, log1: seq<nat>, log2: seq<nat>)
    requires Valid(s) && !Holds(s.l1, BlockOf(s, a)) && !Holds(s.l2, BlockOf(s, a))
    requires Ordered(s.l1, log1) && |log1| > 0 && log1[|log1| - 1] == BlockOf(s, a)
    requires Ordered(s.l2, log2) && |log2| > 0 && log2[|log2| - 1] == BlockOf(s, a)
    ensures var v := AddAddress(Invalidated(s, a), a.addr).1;
            && Ordered(Fill(s, a).l1, log1)
            && Ordered(Fill(s, a).l2, log2 + if VictimDirty(v) then [Block(s.l2.geo, v.addr)] else [])
  {
    BlocksAgree(s.l1.geo, s.l2.geo, a.addr);
    var (l2, v2) := AddAddress(s.l2, a.addr);
    AddIs(s.l2, a.addr);
    AddOrdered(s.l2, a.addr, log2);
    var l1 := Invalidated(s, a);
    if v2.Victim? {
      RemoveBlockIs(s.l1, v2.addr);
      RemoveOrdered(s.l1, v2.addr, log1);
    }
    var (l1', v) := AddAddress(l1, a.addr);
    AddIs(l1, a.addr);
    AddOrdered(l1, a.addr, log1);
    MarkOrdered(l1', a.addr, true, log1);
    WriteBackOrdered(l2, v, log2);
  }

  /** The end of an access that missed L1, after both lookups. */
  lemma MissOrdered(p: Params, s: System, a: Access, hit2: bool, log1: seq<nat>, log2: seq<nat>)
    requires Valid(s) && !Holds(s.l1, BlockOf(s, a)) && (hit2 <==> Holds(s.l2, BlockOf(s, a)))
    requires Ordered(s.l1, log1) && |log1| > 0 && log1[|log1| - 1] == BlockOf(s, a)
    requires Ordered(s.l2, log2) && |log2| > 0 && log2[|log2| - 1] == BlockOf(s, a)
    ensures var v := if !Allocates(p, a) then NoVictim
                     else AddAddress(if hit2 then s.l1 else Invalidated(s, a), a.addr).1;
            var r := if !Allocates(p, a) then s else if hit2 then Promote(s, a) else Fill(s, a);
            && Ordered(r.l1, log1)
            && Ordered(r.l2, log2 + if VictimDirty(v) then [Block(s.l2.geo, v.addr)] else [])
  {
    if !Allocates(p, a) {
      assert log2 + [] == log2;
    } else if hit2 {
      PromoteOrdered(s, a, log1, log2);
    } else {
      FillOrdered(s, a, log1, log2);
    }
  }

  lemma TouchesOnMiss(p: Params, s: System, a: Access, log: seq<nat>)
    requires SystemOk(s) && !HitsL1(s, a)
    ensures var v := L1Victim(p, s, a);
            log + L2Touches(p, s, a) ==
            log + [BlockOf(s, a)] + if VictimDirty(v) then [Block(s.l2.geo, v.addr)] else []
  {
  }

  lemma HandleLineOrdered(p: Params, s: System, a: Access, log1: seq<nat>, log2: seq<nat>)
    requires Valid(s) && Ordered(s.l1, log1) && Ordered(s.l2, log2)
    ensures var r := HandleLine(p, s, a).0;
            && Ordered(r.l1, log1 + [Block(s.l1.geo, a.addr)])
            && Ordered(r.l2, log2 + L2Touches(p, s, a))
  {
    var b := BlockOf(s, a);
    BlocksAgree(s.l1.geo, s.l2.geo, a.addr);
    var (l1, hit1) := Seek(s.l1, a.addr, a.write, false);
    SeekIs(s.l1, a.addr, a.write, false);
    SeekOrdered(s.l1, a.addr, a.write, false, log1);
    if hit1 {
      assert log2 + [] == log2;
    } else {
      var (l2, hit2) := Seek(s.l2, a.addr, a.write, false);
      SeekIs(s.l2, a.addr, a.write, false);
      SeekOrdered(s.l2, a.addr, a.write, false, log2);
      LookupBlocks(s, a, l1, l2);
      MissOrdered(p, System(l1, l2), a, hit2, log1 + [b], log2 + [b]);
      TouchesOnMiss(p, s, a, log2);
    }
  }

  // ---------- runs ----------

  /** The blocks accessed, in order. */
  function L1Log(u: Setup, trace: seq<Access>, n: nat): seq<nat>
    requires n <= |trace|
  {
    if n == 0 then [] else L1Log(u, trace, n - 1) + [Block(u.g1, trace[n - 1].addr)]
  }

  /** The blocks touched in L2, in order. */
  ghost function L2Log(u: Setup, trace: seq<Access>, h: seq<Moment>, n: nat): seq<nat>
    requires IsRun(u, trace, h) && n <= |trace|
  {
    if n == 0 then []
    else
      assert StepsAt(u, trace, h, n - 1);
      L2Log(u, trace, h, n - 1) + L2Touches(u.p, h[n - 1].sys, trace[n - 1])
  }

  /** After n accesses each L1 set is in order of last access, and each L2 set
      in order of last touch. */
  ghost predicate OrderedAt(u: Setup, trace: seq<Access>, h: seq<Moment>, n: nat)
    requires IsRun(u, trace, h) && n < |h|
  {
    Ordered(h[n].sys.l1, L1Log(u, trace, n)) && Ordered(h[n].sys.l2, L2Log(u, trace, h, n))
  }

  lemma StepOrdered(u: Setup, trace: seq<Access>, h: seq<Moment>, n: nat)
    requires IsRun(u, trace, h) && n < |trace| && OrderedAt(u, trace, h, n)
    ensures OrderedAt(u, trace, h, n + 1)
  {
    AlwaysValid(u, trace, h, n);
    assert StepsAt(u, trace, h, n);
    HandleLineOrdered(u.p, h[n].sys, trace[n], L1Log(u, trace, n), L2Log(u, trace, h, n));
  }

  lemma EmptyOrdered(g: Geometry, accessTime: nat)
    ensures Ordered(EmptyCache(g, accessTime), [])
  {
  }

  lemma {:induction false} AlwaysOrdered(u: Setup, trace: seq<Access>, h: seq<Moment>, n: nat)
    requires IsRun(u, trace, h) && n < |h|
    ensures OrderedAt(u, trace, h, n)
  {
    if n == 0 {
      EmptyOrdered(u.g1, u.t1);
      EmptyOrdered(u.g2, u.t2);
    } else {
      AlwaysOrdered(u, trace, h, n - 1);
      StepOrdered(u, trace, h, n - 1);
    }
  }

  // ---------- victims ----------

  /** The set of the address is full, v is held in it, and v was touched before
      every other block of that set. */
  ghost predicate LeastRecent(c: Cache, addr: nat, log: seq<nat>, v: nat)
    requires TableOk(c)
  {
    && |c.table[SetOf(c.geo, addr)]| == c.geo.ways
    && Holds(c, v) && SetOfBlock(c.geo, v) == SetOf(c.geo, addr)
    && (forall b: nat :: Holds(c, b) && SetOfBlock(c.geo, b) == SetOf(c.geo, addr) && b != v ==>
          Last(log, v) < Last(log, b))
  }

  lemma InsertionVictim(c: Cache, addr: nat, log: seq<nat>)
    requires CacheOk(c) && Ordered(c, log) && !Holds(c, Block(c.geo, addr))
    ensures var v := AddAddress(c, addr).1;
            v.Victim? ==> LeastRecent(c, addr, log, Block(c.geo, v.addr))
  {
    var v := AddAddress(c, addr).1;
    if v.Victim? {
      AddIs(c, addr);
      VictimIs(c, addr);
      forall b: nat | Holds(c, b) && SetOfBlock(c.geo, b) == SetOf(c.geo, addr) && b != Block(c.geo, v.addr)
        ensures Last(log, Block(c.geo, v.addr)) < Last(log, b)
      {
        VictimIsLeastRecent(c, addr, log, b);
      }
    }
  }

  /** The victims of one access. L1's is chosen after the block that L2 drops
      has left. */
  lemma AccessVictims(p: Params, s: System, a: Access, log1: seq<nat>, log2: seq<nat>)
    requires Valid(s) && Ordered(s.l1, log1) && Ordered(s.l2, log2)
    ensures var v1, v2, c := L1Victim(p, s, a), L2Victim(p, s, a), L1AtInsertion(s, a);
            && (v2.Victim? ==> LeastRecent(s.l2, a.addr, log2, Block(s.l2.geo, v2.addr)))
            && (v1.Victim? ==> LeastRecent(c, a.addr, log1, Block(s.l1.geo, v1.addr)))
            && (v1.Victim? ==> forall b: nat :: Holds(c, b) <==> Holds(s.l1, b) && !Drops(s.l2.geo, v2, b))
  {
    if !HitsL1(s, a) && Allocates(p, a) {
      var s' := LookedUp(s, a);
      BlocksAgree(s.l1.geo, s.l2.geo, a.addr);
      SeekIs(s.l1, a.addr, a.write, false);
      SeekIs(s.l2, a.addr, a.write, false);
      assert s'.l1.table == s.l1.table;
      if !HitsL2(s, a) {
        assert s'.l2.table == s.l2.table;
        InsertionVictim(s'.l2, a.addr, log2);
        var v2 := L2Victim(p, s, a);
        if v2.Victim? {
          BlocksAgree(s.l1.geo, s.l2.geo, v2.addr);
          RemoveBlockIs(s'.l1, v2.addr);
          RemoveOrdered(s'.l1, v2.addr, log1);
        }
      }
      InsertionVictim(L1AtInsertion(s, a), a.addr, log1);
    }
  }

  /** Over any trace, the block L2 drops is the least recently touched of its
      set, and the block L1 drops the least recently accessed of those L2's
      victim leaves there. */
  lemma VictimsAreLeastRecent(u: Setup, trace: seq<Access>, h: seq<Moment>, i: nat)
    requires IsRun(u, trace, h) && i < |trace|
    ensures SystemOk(h[i].sys)
    ensures var s, a := h[i].sys, trace[i];
            var v1, v2, c := L1Victim(u.p, s, a), L2Victim(u.p, s, a), L1AtInsertion(s, a);
            && (v2.Victim? ==> LeastRecent(s.l2, a.addr, L2Log(u, trace, h, i), Block(u.g2, v2.addr)))
            && (v1.Victim? ==> LeastRecent(c, a.addr, L1Log(u, trace, i), Block(u.g1, v1.addr)))
            && (v1.Victim? ==> forall b: nat :: Holds(c, b) <==> Holds(s.l1, b) && !Drops(u.g2, v2, b))
  {
    AlwaysValid(u, trace, h, i);
    AlwaysOrdered(u, trace, h, i);
    AccessVictims(u.p, h[i].sys, trace[i], L1Log(u, trace, i), L2Log(u, trace, h, i));
  }
}
