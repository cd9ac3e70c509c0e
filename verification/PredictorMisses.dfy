/** How often the counters of a running predictor point the wrong way: the
    bound on the mispredictions of each, over its lifetime. */
module PredictorMisses {
  import opened Bits
  import opened PredictorModel
  import opened PredictorHistory
  import opened PredictorRefinement

  // ---------- one counter fed a list of outcomes ----------

  /** The outcomes that disagreed with the counter's direction when they came. */
  function Misses(m: int, outs: seq<bool>): nat {
    if |outs| == 0 then 0
    else Misses(m, outs[..|outs| - 1])
         + if (Fold(m, outs[..|outs| - 1]) >= WT) != outs[|outs| - 1] then 1 else 0
  }

  function Count(outs: seq<bool>, b: bool): nat {
    if |outs| == 0 then 0
    else Count(outs[..|outs| - 1], b) + if outs[|outs| - 1] == b then 1 else 0
  }

  function AtMostTwo(x: int): int {
    if x < 2 then x else 2
  }

  lemma OneMoreOutcome(m: int, outs: seq<bool>, taken: bool)
    ensures Misses(m, outs + [taken]) == Misses(m, outs) + if (Fold(m, outs) >= WT) != taken then 1 else 0
    ensures forall b :: Count(outs + [taken], b) == Count(outs, b) + if taken == b then 1 else 0
  {
    assert (outs + [taken])[..|outs|] == outs;
  }

  /** Each miss moves the counter across a step it must have been pushed back over. */
  lemma {:induction false} MissesBalance(m: int, outs: seq<bool>)
    requires IsCounter(m)
    ensures var r := Fold(m, outs);
            && Misses(m, outs) <= 2 * Count(outs, false) + AtMostTwo(r) - AtMostTwo(m)
            && Misses(m, outs) <= 2 * Count(outs, true) + AtMostTwo(ST - r) - AtMostTwo(ST - m)
  {
    if |outs| > 0 {
      MissesBalance(m, outs[..|outs| - 1]);
    }
  }

  lemma MissBound(m: int, outs: seq<bool>)
    requires IsCounter(m)
    ensures Misses(m, outs) <= 2 * Count(outs, true) + 2
    ensures Misses(m, outs) <= 2 * Count(outs, false) + 2
  {
    MissesBalance(m, outs);
  }

  // ---------- outcomes selected from a list of updates ----------

  function CountUpTo(p: nat -> bool, n: nat): nat {
    if n == 0 then 0 else CountUpTo(p, n - 1) + if p(n - 1) then 1 else 0
  }

  /** The outcomes of those of the first n updates that p picks. */
  function Selected(p: nat -> bool, us: seq<Update>, n: nat): seq<bool>
    requires n <= |us|
  {
    if n == 0 then [] else Selected(p, us, n - 1) + if p(n - 1) then [us[n - 1].taken] else []
  }

  lemma {:induction false} SelectedCount(p: nat -> bool, q: nat -> bool, us: seq<Update>, b: bool, n: nat)
    requires n <= |us| && forall j: nat :: j < n ==> (q(j) <==> p(j) && us[j].taken == b)
    ensures CountUpTo(q, n) == Count(Selected(p, us, n), b)
  {
    if n > 0 {
      SelectedCount(p, q, us, b, n - 1);
      OneMoreOutcome(WNT, Selected(p, us, n - 1), us[n - 1].taken);
      assert q(n - 1) <==> p(n - 1) && us[n - 1].taken == b;
      assert Selected(p, us, n - 1) + [] == Selected(p, us, n - 1);
    }
  }

  lemma {:induction false} SelectedMisses(p: nat -> bool, q: nat -> bool, us: seq<Update>, m: int, n: nat)
    requires n <= |us|
    requires forall j: nat :: j < n ==> (q(j) <==> p(j) && (Fold(m, Selected(p, us, j)) >= WT) != us[j].taken)
    ensures CountUpTo(q, n) == Misses(m, Selected(p, us, n))
  {
    if n > 0 {
      SelectedMisses(p, q, us, m, n - 1);
      OneMoreOutcome(m, Selected(p, us, n - 1), us[n - 1].taken);
      assert q(n - 1) <==> p(n - 1) && (Fold(m, Selected(p, us, n - 1)) >= WT) != us[n - 1].taken;
      assert Selected(p, us, n - 1) + [] == Selected(p, us, n - 1);
    }
  }

  // ---------- the counters of a running predictor ----------

  /** Before update j, the counter it trains points the other way. */
  ghost predicate Disagrees(c: Config, us: seq<Update>, j: nat)
    requires ConfigOk(c) && j < |us|
  {
    var s, pc := Run(c, us[..j]), us[j].pc;
    (UsedTable(c, s, pc)[UsedSlot(c, s, pc)] >= WT) != us[j].taken
  }

  /** Update j trains the given counter, in the lifetime that the counter is in
      after all updates: for a local one, since its entry last changed tag. */
  ghost predicate TrainsCounter(c: Config, us: seq<Update>, index: nat, tag: nat, slot: nat, j: nat)
    requires ConfigOk(c) && j < |us|
  {
    (c.globalTable || SinceTag(c, us, index, tag, j)) && UsedSlot(c, Run(c, us[..j]), us[j].pc) == slot
  }

  /** The updates that train the counter; those among them with the outcome b;
      and those before which it pointed the other way. */
  ghost function Training(c: Config, us: seq<Update>, index: nat, tag: nat, slot: nat): nat -> bool
    requires ConfigOk(c)
  {
    (j: nat) => j < |us| && TrainsCounter(c, us, index, tag, slot, j)
  }

  ghost function TrainingWith(c: Config, us: seq<Update>, index: nat, tag: nat, slot: nat, b: bool): nat -> bool
    requires ConfigOk(c)
  {
    (j: nat) => j < |us| && TrainsCounter(c, us, index, tag, slot, j) && us[j].taken == b
  }

  ghost function Missing(c: Config, us: seq<Update>, index: nat, tag: nat, slot: nat): nat -> bool
    requires ConfigOk(c)
  {
    (j: nat) => j < |us| && TrainsCounter(c, us, index, tag, slot, j) && Disagrees(c, us, j)
  }

  /** How many updates train the counter with the outcome b. */
  ghost function Trainings(c: Config, us: seq<Update>, index: nat, tag: nat, slot: nat, b: bool): nat
    requires ConfigOk(c)
  {
    CountUpTo(TrainingWith(c, us, index, tag, slot, b), |us|)
  }

  /** Before how many updates that train it the counter pointed the other way. */
  ghost function Disagreements(c: Config, us: seq<Update>, index: nat, tag: nat, slot: nat): nat
    requires ConfigOk(c)
  {
    CountUpTo(Missing(c, us, index, tag, slot), |us|)
  }

  /** The trained counter is the reference's. */
  lemma UsedCounter(c: Config, us: seq<Update>, pc: Word)
    requires ConfigOk(c)
    ensures var s, slot := Run(c, us), RefSlot(c, us, pc);
            UsedSlot(c, s, pc) == slot
            && UsedTable(c, s, pc)[slot] == RefCounter(c, us, Index(c, pc), Tag(c, pc), slot)
  {
    RunRefines(c, us);
    var s, index, tag := Run(c, us), Index(c, pc), Tag(c, pc);
    UsedHistory(c, us, s, pc);
    ClaimedEntry(c, us, index, tag, s.btb[index]);
    GlobalScope(c, us, 0, 0, index, tag, RefSlot(c, us, pc), |us|);
  }

  /** Before an update of a lifetime, the counter has seen what that lifetime
      has brought so far. */
  lemma {:induction false} LifetimePrefix(c: Config, us: seq<Update>, index: nat, tag: nat, slot: nat, j: nat, n: nat)
    requires c.btbSize >= 1 && n <= j < |us| && (c.globalTable || SinceTag(c, us, index, tag, j))
    ensures CounterOutcomes(c, us[..j], index, tag, slot, n) == CounterOutcomes(c, us, index, tag, slot, n)
  {
    if n > 0 {
      LifetimePrefix(c, us, index, tag, slot, j, n - 1);
      TrainsOfPrefix(c, us, index, tag, slot, j, n - 1);
    }
  }

  lemma TrainsOfPrefix(c: Config, us: seq<Update>, index: nat, tag: nat, slot: nat, j: nat, k: nat)
    requires c.btbSize >= 1 && k < j < |us| && (c.globalTable || SinceTag(c, us, index, tag, j))
    ensures Trains(c, us[..j], index, tag, slot, k) <==> Trains(c, us, index, tag, slot, k)
  {
    assert us[..j][..k] == us[..k];
    if !c.globalTable {
      SinceTagOfPrefix(c, us, index, tag, j, k);
    }
  }

  lemma SinceTagOfPrefix(c: Config, us: seq<Update>, index: nat, tag: nat, j: nat, k: nat)
    requires c.btbSize >= 1 && k < j < |us| && SinceTag(c, us, index, tag, j)
    ensures SinceTag(c, us[..j], index, tag, k) <==> SinceTag(c, us, index, tag, k)
  {
    assert forall i :: 0 <= i < j ==> us[..j][i] == us[i];
  }

  /** Whether update j disagrees, from the outcomes its counter has seen. */
  lemma DisagreesIs(c: Config, us: seq<Update>, index: nat, tag: nat, slot: nat, j: nat)
    requires ConfigOk(c) && j < |us|
    ensures TrainsCounter(c, us, index, tag, slot, j) <==> Trains(c, us, index, tag, slot, j)
    ensures Trains(c, us, index, tag, slot, j) ==>
              (Disagrees(c, us, j) <==>
               (Fold(c.defFsm, CounterOutcomes(c, us, index, tag, slot, j)) >= WT) != us[j].taken)
  {
    var pc := us[j].pc;
    UsedCounter(c, us[..j], pc);
    if Trains(c, us, index, tag, slot, j) {
      GlobalScope(c, us[..j], index, tag, Index(c, pc), Tag(c, pc), slot, j);
      LifetimePrefix(c, us, index, tag, slot, j, j);
    }
  }

  lemma {:induction false} OutcomesAreSelected(c: Config, us: seq<Update>, index: nat, tag: nat, slot: nat, n: nat)
    requires ConfigOk(c) && n <= |us|
    ensures CounterOutcomes(c, us, index, tag, slot, n) == Selected(Training(c, us, index, tag, slot), us, n)
  {
    if n > 0 {
      OutcomesAreSelected(c, us, index, tag, slot, n - 1);
      DisagreesIs(c, us, index, tag, slot, n - 1);
    }
  }

  /** How often a run trains a counter with an outcome is how often the outcome
      is among those which trained it. */
  lemma TrainingsAreOutcomes(c: Config, us: seq<Update>, index: nat, tag: nat, slot: nat, b: bool)
    requires ConfigOk(c)
    ensures Trainings(c, us, index, tag, slot, b) == Count(CounterOutcomes(c, us, index, tag, slot, |us|), b)
  {
    OutcomesAreSelected(c, us, index, tag, slot, |us|);
    SelectedCount(Training(c, us, index, tag, slot), TrainingWith(c, us, index, tag, slot, b), us, b, |us|);
  }

  /** A run's disagreements at one of its counters are the misses of a counter
      alone that is fed the outcomes which trained it. */
  lemma DisagreementsAreMisses(c: Config, us: seq<Update>, index: nat, tag: nat, slot: nat)
    requires ConfigOk(c)
    ensures Disagreements(c, us, index, tag, slot)
            == Misses(c.defFsm, CounterOutcomes(c, us, index, tag, slot, |us|))
  {
    var p, q := Training(c, us, index, tag, slot), Missing(c, us, index, tag, slot);
    forall j: nat | j < |us|
      ensures q(j) <==> p(j) && (Fold(c.defFsm, Selected(p, us, j)) >= WT) != us[j].taken
    {
      DisagreesIs(c, us, index, tag, slot, j);
      OutcomesAreSelected(c, us, index, tag, slot, j);
    }
    OutcomesAreSelected(c, us, index, tag, slot, |us|);
    SelectedMisses(p, q, us, c.defFsm, |us|);
  }

  /** Over the lifetime of any counter of the predictor, the updates at which its
      direction disagreed with the outcome are at most twice those with the
      rarer outcome, and two more. */
  lemma MispredictionBound(c: Config, us: seq<Update>, index: nat, tag: nat, slot: nat)
    requires ConfigOk(c)
    ensures var misses := Disagreements(c, us, index, tag, slot);
            && misses <= 2 * Trainings(c, us, index, tag, slot, true) + 2
            && misses <= 2 * Trainings(c, us, index, tag, slot, false) + 2
  {
    DisagreementsAreMisses(c, us, index, tag, slot);
    TrainingsAreOutcomes(c, us, index, tag, slot, true);
    TrainingsAreOutcomes(c, us, index, tag, slot, false);
    MissBound(c.defFsm, CounterOutcomes(c, us, index, tag, slot, |us|));
  }

  // ---------- the bound is attained ----------

  /** Two not-taken outcomes, then taken and not-taken alternating k times. */
  function Alternating(k: nat): seq<bool> {
    if k == 0 then [false, false] else Alternating(k - 1) + [true, false]
  }

  /** From strongly taken every one of these outcomes is a miss. */
  lemma {:induction false} BoundAttained(k: nat)
    ensures Count(Alternating(k), true) == k && Fold(ST, Alternating(k)) == WNT
    ensures Misses(ST, Alternating(k)) == 2 * Count(Alternating(k), true) + 2
  {
    var outs := Alternating(k);
    if k == 0 {
      assert outs[..1] == [false] && outs[..1][..0] == [];
      assert Fold(ST, [false]) == WT && Misses(ST, [false]) == 1;
    } else {
      BoundAttained(k - 1);
      var rest := Alternating(k - 1);
      assert outs[..|outs| - 1] == rest + [true];
      assert (rest + [true])[..|rest|] == rest;
      assert Fold(ST, rest + [true]) == WT;
    }
  }

  // ---------- a predictor that attains the bound ----------

  /** One global counter table and one bit of global history, mixed with the
      branch's address. */
  const SHARED := Config(1, 1, 0, ST, true, true, UsingLsb)

  /** The outcomes as branches whose address bit cancels the history, so that
      all of them train counter 0. */
  function Cancelling(outs: seq<bool>): (r: seq<Update>)
    ensures |r| == |outs| && forall j :: 0 <= j < |r| ==> r[j].taken == outs[j]
  {
    seq(|outs|, j requires 0 <= j < |outs| => Update(if j > 0 && outs[j - 1] then 4 else 0, 0, outs[j], 0))
  }

  lemma SharedSlot(history: nat)
    requires history <= 1
    ensures Select(SHARED, history, 4 * history) == 0
  {
    assert Pow2(2) == 4 && Pow2(1) == 2;
  }

  lemma {:induction false} LastOutcome(us: seq<Update>, index: nat, tag: nat, n: nat)
    requires n <= |us|
    ensures var outs := HistoryOutcomes(SHARED, us, index, tag, n);
            |outs| == n && (n > 0 ==> outs[n - 1] == us[n - 1].taken)
  {
    if n > 0 {
      LastOutcome(us, index, tag, n - 1);
    }
  }

  /** The history before each branch is the outcome before it. */
  lemma CancellingSlot(outs: seq<bool>, j: nat)
    requires j < |outs|
    ensures var us := Cancelling(outs); RefSlot(SHARED, us[..j], us[j].pc) == 0
  {
    var us := Cancelling(outs);
    var pc := us[j].pc;
    LastOutcome(us[..j], Index(SHARED, pc), Tag(SHARED, pc), j);
    var seen := HistoryOutcomes(SHARED, us[..j], Index(SHARED, pc), Tag(SHARED, pc), j);
    assert LastOutcomes(seen, 1) == if j > 0 && outs[j - 1] then 1 else 0;
    SharedSlot(RefHistory(SHARED, us[..j], pc));
  }

  /** If every update selects the same global counter, it sees all outcomes. */
  lemma {:induction false} OneSlotOutcomes(c: Config, us: seq<Update>, index: nat, tag: nat, slot: nat, n: nat)
    requires c.btbSize >= 1 && c.globalTable && n <= |us|
    requires forall j :: 0 <= j < n ==> Trains(c, us, index, tag, slot, j)
    ensures var outs := CounterOutcomes(c, us, index, tag, slot, n);
            |outs| == n && forall j :: 0 <= j < n ==> outs[j] == us[j].taken
  {
    if n > 0 {
      OneSlotOutcomes(c, us, index, tag, slot, n - 1);
      assert Trains(c, us, index, tag, slot, n - 1);
    }
  }

  lemma CancellingOutcomes(outs: seq<bool>)
    ensures CounterOutcomes(SHARED, Cancelling(outs), 0, 0, 0, |outs|) == outs
  {
    var us := Cancelling(outs);
    forall j | 0 <= j < |us|
      ensures Trains(SHARED, us, 0, 0, 0, j)
    {
      CancellingSlot(outs, j);
    }
    OneSlotOutcomes(SHARED, us, 0, 0, 0, |us|);
  }

  /** For every number of taken outcomes, a run of this predictor attains the bound. */
  lemma RunAttainsBound(k: nat)
    ensures ConfigOk(SHARED)
    ensures var us := Cancelling(Alternating(k));
            && Trainings(SHARED, us, 0, 0, 0, true) == k
            && Disagreements(SHARED, us, 0, 0, 0) == 2 * k + 2
  {
    var outs := Alternating(k);
    assert ConfigOk(SHARED);
    BoundAttained(k);
    CancellingOutcomes(outs);
    DisagreementsAreMisses(SHARED, Cancelling(outs), 0, 0, 0);
    TrainingsAreOutcomes(SHARED, Cancelling(outs), 0, 0, 0, true);
  }
}
