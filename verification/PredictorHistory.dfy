/** What the predictor's tables hold, read off the list of updates alone. */
module PredictorHistory {
  import opened Bits
  import opened PredictorModel

  // ---------- the reference ----------

  /** The last n outcomes as a number, the latest in the lowest bit. */
  function LastOutcomes(outs: seq<bool>, n: nat): (r: nat)
    ensures r < Pow2(n)
    decreases n
  {
    if n == 0 || |outs| == 0 then 0
    else 2 * LastOutcomes(outs[..|outs| - 1], n - 1) + if outs[|outs| - 1] then 1 else 0
  }

  /** A counter that has seen the outcomes, starting from m. */
  function Fold(m: int, outs: seq<bool>): (r: int)
    ensures IsCounter(m) ==> IsCounter(r)
  {
    if |outs| == 0 then m else Saturate(Fold(m, outs[..|outs| - 1]), outs[|outs| - 1])
  }

  /** Update j is at the index with the tag, and no update at the index since
      then had another tag. */
  ghost predicate SinceTag(c: Config, us: seq<Update>, index: nat, tag: nat, j: nat)
    requires c.btbSize >= 1 && j < |us|
  {
    && Index(c, us[j].pc) == index && Tag(c, us[j].pc) == tag
    && (forall k :: j < k < |us| && Index(c, us[k].pc) == index ==> Tag(c, us[k].pc) == tag)
  }

  /** The outcomes in scope of a history register: all of them, or those at the
      index since its tag last changed. */
  ghost function HistoryOutcomes(c: Config, us: seq<Update>, index: nat, tag: nat, n: nat): seq<bool>
    requires c.btbSize >= 1 && n <= |us|
  {
    if n == 0 then []
    else HistoryOutcomes(c, us, index, tag, n - 1)
         + if c.globalHist || SinceTag(c, us, index, tag, n - 1) then [us[n - 1].taken] else []
  }

  /** The history a branch at pc sees after the updates. */
  ghost function RefHistory(c: Config, us: seq<Update>, pc: Word): (r: nat)
    requires c.btbSize >= 1
    ensures r < Pow2(c.histSize)
  {
    LastOutcomes(HistoryOutcomes(c, us, Index(c, pc), Tag(c, pc), |us|), c.histSize)
  }

  ghost function RefSlot(c: Config, us: seq<Update>, pc: Word): nat
    requires c.btbSize >= 1
  {
    Select(c, RefHistory(c, us, pc), pc)
  }

  /** Update j is in scope of the counters and selected the slot. */
  ghost predicate Trains(c: Config, us: seq<Update>, index: nat, tag: nat, slot: nat, j: nat)
    requires c.btbSize >= 1 && j < |us|
  {
    (c.globalTable || SinceTag(c, us, index, tag, j)) && RefSlot(c, us[..j], us[j].pc) == slot
  }

  /** The outcomes that trained a counter. */
  ghost function CounterOutcomes(c: Config, us: seq<Update>, index: nat, tag: nat, slot: nat, n: nat): seq<bool>
    requires c.btbSize >= 1 && n <= |us|
  {
    if n == 0 then []
    else CounterOutcomes(c, us, index, tag, slot, n - 1)
         + if Trains(c, us, index, tag, slot, n - 1) then [us[n - 1].taken] else []
  }

  ghost function RefCounter(c: Config, us: seq<Update>, index: nat, tag: nat, slot: nat): int
    requires c.btbSize >= 1
  {
    Fold(c.defFsm, CounterOutcomes(c, us, index, tag, slot, |us|))
  }

  /** The latest of the first n updates at the index, or -1. */
  ghost function LastAt(c: Config, us: seq<Update>, index: nat, n: nat): (r: int)
    requires c.btbSize >= 1 && n <= |us|
    ensures -1 <= r < n
    ensures r >= 0 ==> Index(c, us[r].pc) == index
    ensures forall k :: r < k < n ==> Index(c, us[k].pc) != index
  {
    if n == 0 then -1 else if Index(c, us[n - 1].pc) == index then n - 1 else LastAt(c, us, index, n - 1)
  }

  ghost function RefTag(c: Config, us: seq<Update>, index: nat): nat
    requires c.btbSize >= 1
  {
    var j := LastAt(c, us, index, |us|);
    if j < 0 then 0 else Tag(c, us[j].pc)
  }

  ghost function RefTarget(c: Config, us: seq<Update>, index: nat): Word
    requires c.btbSize >= 1
  {
    var j := LastAt(c, us, index, |us|);
    if j < 0 then 0 else us[j].target
  }

  /** Where the branch really goes. */
  function NextPc(u: Update): Word {
    if u.taken then u.target else U32(u.pc + 4)
  }

  /** How many branches went elsewhere than predicted. */
  function CountFlushes(us: seq<Update>): nat {
    if |us| == 0 then 0
    else CountFlushes(us[..|us| - 1]) + if us[|us| - 1].predDst != NextPc(us[|us| - 1]) then 1 else 0
  }

  /** The prediction, from the updates alone. */
  ghost function RefPredict(c: Config, us: seq<Update>, pc: Word): Word
    requires c.btbSize >= 1
  {
    var index, tag := Index(c, pc), Tag(c, pc);
    if RefTag(c, us, index) == tag && RefCounter(c, us, index, tag, RefSlot(c, us, pc)) >= WT
    then RefTarget(c, us, index) else U32(pc + 4)
  }

  // ---------- what registers and counters hold ----------

  /** Bit i of a history register is the outcome i before the last. */
  lemma {:induction false} LastOutcomesBits(outs: seq<bool>, n: nat, i: nat)
    ensures Bit(LastOutcomes(outs, n), i) <==> i < n && i < |outs| && outs[|outs| - 1 - i]
    decreases n
  {
    if n == 0 || |outs| == 0 {
      NoBits(i);
    } else if i > 0 {
      LastOutcomesBits(outs[..|outs| - 1], n - 1, i - 1);
    }
  }

  function Min(a: int, b: int): int {
    if a <= b then a else b
  }

  /** A row of equal outcomes moves a counter one state each, up to its end. */
  lemma {:induction false} RowOfOutcomes(m: int, outs: seq<bool>, b: bool)
    requires IsCounter(m) && forall k :: 0 <= k < |outs| ==> outs[k] == b
    ensures Fold(m, outs) == if b then Min(ST, m + |outs|) else Max(SNT, m - |outs|)
  {
    if |outs| > 0 {
      RowOfOutcomes(m, outs[..|outs| - 1], b);
    }
  }

  // ---------- appending an update ----------

  lemma {:induction false} ShiftInIs(outs: seq<bool>, taken: bool, n: nat)
    ensures (2 * LastOutcomes(outs, n) + if taken then 1 else 0) % Pow2(n) == LastOutcomes(outs + [taken], n)
  {
    if n > 0 {
      assert (outs + [taken])[..|outs|] == outs;
      LowOutcomes(outs, n);
      var x, bit := LastOutcomes(outs, n), if taken then 1 else 0;
      var q := if x >= Pow2(n - 1) then 1 else 0;
      DivIs(2 * x + bit, Pow2(n), q, 2 * LastOutcomes(outs, n - 1) + bit);
    }
  }

  /** Dropping the oldest bit. */
  lemma {:induction false} LowOutcomes(outs: seq<bool>, n: nat)
    requires n > 0
    ensures var x := LastOutcomes(outs, n);
            LastOutcomes(outs, n - 1) == if x >= Pow2(n - 1) then x - Pow2(n - 1) else x
    decreases n
  {
    if n > 1 && |outs| > 0 {
      LowOutcomes(outs[..|outs| - 1], n - 1);
    }
  }

  lemma LastAtLonger(c: Config, us: seq<Update>, u: Update, index: nat)
    requires c.btbSize >= 1
    ensures LastAt(c, us + [u], index, |us| + 1) ==
            if Index(c, u.pc) == index then |us| else LastAt(c, us, index, |us|)
  {
    if Index(c, u.pc) != index {
      LastAtPrefix(c, us, u, index, |us|);
    }
  }

  lemma {:induction false} LastAtPrefix(c: Config, us: seq<Update>, u: Update, index: nat, n: nat)
    requires c.btbSize >= 1 && n <= |us|
    ensures LastAt(c, us + [u], index, n) == LastAt(c, us, index, n)
  {
    if n > 0 {
      LastAtPrefix(c, us, u, index, n - 1);
    }
  }

  /** How one more update changes which earlier ones count. */
  lemma SinceTagLonger(c: Config, us: seq<Update>, u: Update, index: nat, tag: nat, j: nat)
    requires c.btbSize >= 1 && j < |us|
    ensures SinceTag(c, us + [u], index, tag, j) <==>
            SinceTag(c, us, index, tag, j) && (Index(c, u.pc) == index ==> Tag(c, u.pc) == tag)
  {
    var vs := us + [u];
    assert forall k :: 0 <= k < |us| ==> vs[k] == us[k];
    assert vs[|us|] == u;
  }

  /** After an update at the index with another tag, nothing counts. */
  lemma NoneSince(c: Config, us: seq<Update>, index: nat, tag: nat, j: nat)
    requires c.btbSize >= 1 && j < |us| && tag != RefTag(c, us, index)
    ensures !SinceTag(c, us, index, tag, j)
  {
    if Index(c, us[j].pc) == index {
      var k := LastAt(c, us, index, |us|);
      assert k >= j;
    }
  }

  lemma {:induction false} HistoryPrefix(c: Config, us: seq<Update>, u: Update, index: nat, tag: nat, n: nat)
    requires c.btbSize >= 1 && n <= |us| && (c.globalHist || (Index(c, u.pc) == index ==> Tag(c, u.pc) == tag))
    ensures HistoryOutcomes(c, us + [u], index, tag, n) == HistoryOutcomes(c, us, index, tag, n)
  {
    if n > 0 {
      HistoryPrefix(c, us, u, index, tag, n - 1);
      SinceTagLonger(c, us, u, index, tag, n - 1);
    }
  }

  lemma {:induction false} NoHistory(c: Config, us: seq<Update>, index: nat, tag: nat, n: nat)
    requires c.btbSize >= 1 && n <= |us| && !c.globalHist && tag != RefTag(c, us, index)
    ensures HistoryOutcomes(c, us, index, tag, n) == []
  {
    if n > 0 {
      NoHistory(c, us, index, tag, n - 1);
      NoneSince(c, us, index, tag, n - 1);
    }
  }

  /** The history in scope grows by the outcome if the update is in scope. */
  lemma HistoryLonger(c: Config, us: seq<Update>, u: Update, index: nat, tag: nat)
    requires c.btbSize >= 1 && (c.globalHist || (Index(c, u.pc) == index ==> Tag(c, u.pc) == tag))
    ensures HistoryOutcomes(c, us + [u], index, tag, |us| + 1) ==
            var outs := HistoryOutcomes(c, us, index, tag, |us|);
            if c.globalHist || Index(c, u.pc) == index then outs + [u.taken] else outs
  {
    HistoryPrefix(c, us, u, index, tag, |us|);
    var outs := HistoryOutcomes(c, us, index, tag, |us|);
    assert outs + [] == outs;
    assert (us + [u])[|us|] == u;
  }

  lemma {:induction false} CounterPrefix(c: Config, us: seq<Update>, u: Update, index: nat, tag: nat, slot: nat, n: nat)
    requires c.btbSize >= 1 && n <= |us| && (c.globalTable || (Index(c, u.pc) == index ==> Tag(c, u.pc) == tag))
    ensures CounterOutcomes(c, us + [u], index, tag, slot, n) == CounterOutcomes(c, us, index, tag, slot, n)
  {
    if n > 0 {
      CounterPrefix(c, us, u, index, tag, slot, n - 1);
      SinceTagLonger(c, us, u, index, tag, n - 1);
      assert (us + [u])[..n - 1] == us[..n - 1];
    }
  }

  lemma {:induction false} NoTraining(c: Config, us: seq<Update>, index: nat, tag: nat, slot: nat, n: nat)
    requires c.btbSize >= 1 && n <= |us| && !c.globalTable && tag != RefTag(c, us, index)
    ensures CounterOutcomes(c, us, index, tag, slot, n) == []
  {
    if n > 0 {
      NoTraining(c, us, index, tag, slot, n - 1);
      NoneSince(c, us, index, tag, n - 1);
    }
  }

  /** A counter's training grows by the outcome if the update is in scope and selects it. */
  lemma CounterLonger(c: Config, us: seq<Update>, u: Update, index: nat, tag: nat, slot: nat)
    requires c.btbSize >= 1 && (c.globalTable || (Index(c, u.pc) == index ==> Tag(c, u.pc) == tag))
    ensures CounterOutcomes(c, us + [u], index, tag, slot, |us| + 1) ==
            var outs := CounterOutcomes(c, us, index, tag, slot, |us|);
            if (c.globalTable || Index(c, u.pc) == index) && RefSlot(c, us, u.pc) == slot then outs + [u.taken] else outs
  {
    CounterPrefix(c, us, u, index, tag, slot, |us|);
    var outs := CounterOutcomes(c, us, index, tag, slot, |us|);
    assert outs + [] == outs;
    assert (us + [u])[|us|] == u;
    assert (us + [u])[..|us|] == us;
  }

  /** Global registers and counters do not depend on an index or a tag. */
  lemma {:induction false} GlobalScope(c: Config, us: seq<Update>, i: nat, t: nat, i': nat, t': nat, slot: nat, n: nat)
    requires c.btbSize >= 1 && n <= |us|
    ensures c.globalHist ==> HistoryOutcomes(c, us, i, t, n) == HistoryOutcomes(c, us, i', t', n)
    ensures c.globalTable ==> CounterOutcomes(c, us, i, t, slot, n) == CounterOutcomes(c, us, i', t', slot, n)
  {
    if n > 0 {
      GlobalScope(c, us, i, t, i', t', slot, n - 1);
    }
  }
}
