/** The predictor's tables equal the reference after every sequence of updates,
    and so do its predictions. */
module PredictorRefinement {
  import opened Bits
  import opened PredictorModel
  import opened PredictorHistory

  /** A history register with the given scope. */
  ghost predicate HistoryIs(c: Config, us: seq<Update>, index: nat, tag: nat, history: nat)
    requires c.btbSize >= 1
  {
    history == LastOutcomes(HistoryOutcomes(c, us, index, tag, |us|), c.histSize)
  }

  /** A table of counters with the given scope. */
  ghost predicate TableIs(c: Config, us: seq<Update>, index: nat, tag: nat, machines: seq<int>)
    requires c.btbSize >= 1
  {
    && |machines| == Pow2(c.histSize)
    && (forall slot :: 0 <= slot < |machines| ==> machines[slot] == RefCounter(c, us, index, tag, slot))
  }

  ghost predicate EntryIs(c: Config, us: seq<Update>, index: nat, e: Entry)
    requires c.btbSize >= 1
  {
    && e.tag == RefTag(c, us, index) && e.target == RefTarget(c, us, index)
    && (!c.globalHist ==> HistoryIs(c, us, index, e.tag, e.history))
    && (!c.globalTable ==> TableIs(c, us, index, e.tag, e.machines))
  }

  /** Every register, counter, tag, target and statistic is the reference's. */
  ghost predicate Refines(c: Config, us: seq<Update>, s: Predictor) {
    && PredictorOk(c, s)
    && (c.globalHist ==> HistoryIs(c, us, 0, 0, s.globalHistory))
    && (c.globalTable ==> TableIs(c, us, 0, 0, s.globalMachines))
    && (forall i :: 0 <= i < |s.btb| ==> EntryIs(c, us, i, s.btb[i]))
    && s.branches == |us| && s.flushes == CountFlushes(us)
  }

  lemma InitRefines(c: Config)
    requires ConfigOk(c)
    ensures Refines(c, [], Init(c))
  {
  }

  // ---------- one update ----------

  lemma TableUntouched(c: Config, us: seq<Update>, u: Update, index: nat, tag: nat, machines: seq<int>)
    requires c.btbSize >= 1 && TableIs(c, us, index, tag, machines) && !c.globalTable && Index(c, u.pc) != index
    ensures TableIs(c, us + [u], index, tag, machines)
  {
    forall slot | 0 <= slot < |machines|
      ensures machines[slot] == RefCounter(c, us + [u], index, tag, slot)
    {
      CounterLonger(c, us, u, index, tag, slot);
    }
  }

  /** The selected counter takes one step. */
  lemma SlotTrained(c: Config, us: seq<Update>, u: Update, index: nat, tag: nat, slot: nat)
    requires c.btbSize >= 1 && slot == RefSlot(c, us, u.pc)
    requires c.globalTable || (Index(c, u.pc) == index && Tag(c, u.pc) == tag)
    ensures RefCounter(c, us + [u], index, tag, slot) == Saturate(RefCounter(c, us, index, tag, slot), u.taken)
  {
    CounterLonger(c, us, u, index, tag, slot);
    var outs := CounterOutcomes(c, us, index, tag, slot, |us|);
    assert (outs + [u.taken])[..|outs|] == outs;
  }

  /** Updating the selected counter of a table in scope of the update. */
  lemma TableTrained(c: Config, us: seq<Update>, u: Update, index: nat, tag: nat, machines: seq<int>)
    requires c.btbSize >= 1 && TableIs(c, us, index, tag, machines)
    requires c.globalTable || (Index(c, u.pc) == index && Tag(c, u.pc) == tag)
    requires RefSlot(c, us, u.pc) < |machines|
    ensures var slot := RefSlot(c, us, u.pc);
            TableIs(c, us + [u], index, tag, machines[slot := Saturate(machines[slot], u.taken)])
  {
    var sel := RefSlot(c, us, u.pc);
    SlotTrained(c, us, u, index, tag, sel);
    forall slot | 0 <= slot < |machines| && slot != sel
      ensures RefCounter(c, us + [u], index, tag, slot) == machines[slot]
    {
      CounterLonger(c, us, u, index, tag, slot);
    }
  }

  /** Shifting the outcome into a register in scope of the update. */
  lemma HistoryShifted(c: Config, us: seq<Update>, u: Update, index: nat, tag: nat, history: nat)
    requires c.btbSize >= 1 && HistoryIs(c, us, index, tag, history)
    requires c.globalHist || (Index(c, u.pc) == index && Tag(c, u.pc) == tag)
    ensures HistoryIs(c, us + [u], index, tag, ShiftIn(c, history, u.taken))
  {
    HistoryLonger(c, us, u, index, tag);
    var outs := HistoryOutcomes(c, us, index, tag, |us|);
    RegisterShifted(c, outs, u.taken);
    assert |us + [u]| == |us| + 1;
    assert HistoryOutcomes(c, us + [u], index, tag, |us + [u]|) == outs + [u.taken];
  }

  lemma RegisterShifted(c: Config, outs: seq<bool>, taken: bool)
    ensures ShiftIn(c, LastOutcomes(outs, c.histSize), taken) == LastOutcomes(outs + [taken], c.histSize)
  {
    ShiftInIs(outs, taken, c.histSize);
  }

  /** Entries at other indices stay the reference's. */
  lemma OtherEntry(c: Config, us: seq<Update>, u: Update, index: nat, e: Entry)
    requires c.btbSize >= 1 && EntryIs(c, us, index, e) && Index(c, u.pc) != index
    ensures EntryIs(c, us + [u], index, e)
  {
    LastAtLonger(c, us, u, index);
    if !c.globalHist {
      HistoryLonger(c, us, u, index, e.tag);
    }
    if !c.globalTable {
      TableUntouched(c, us, u, index, e.tag, e.machines);
    }
  }

  /** A claimed entry has the registers and counters of its new tag. */
  lemma ClaimedEntry(c: Config, us: seq<Update>, index: nat, tag: nat, e: Entry)
    requires c.btbSize >= 1 && EntryIs(c, us, index, e)
    ensures var e' := Claimed(c, e, tag);
            && e'.tag == tag
            && (!c.globalHist ==> HistoryIs(c, us, index, tag, e'.history))
            && (!c.globalTable ==> TableIs(c, us, index, tag, e'.machines))
  {
    if tag != e.tag {
      if !c.globalHist {
        NoHistory(c, us, index, tag, |us|);
      }
      if !c.globalTable {
        forall slot | 0 <= slot < Pow2(c.histSize)
          ensures RefCounter(c, us, index, tag, slot) == c.defFsm
        {
          NoTraining(c, us, index, tag, slot, |us|);
        }
      }
    }
  }

  /** The history and the slot an update uses are the reference's. */
  lemma UsedHistory(c: Config, us: seq<Update>, s: Predictor, pc: Word)
    requires Refines(c, us, s)
    ensures var e := Claimed(c, s.btb[Index(c, pc)], Tag(c, pc));
            var history := if c.globalHist then s.globalHistory else e.history;
            history == RefHistory(c, us, pc) && UsedSlot(c, s, pc) == RefSlot(c, us, pc) < Pow2(c.histSize)
  {
    var index, tag := Index(c, pc), Tag(c, pc);
    ClaimedEntry(c, us, index, tag, s.btb[index]);
    GlobalScope(c, us, 0, 0, index, tag, 0, |us|);
    SelectFits(c, RefHistory(c, us, pc), pc);
  }

  lemma UpdatedEntry(c: Config, us: seq<Update>, s: Predictor, u: Update)
    requires Refines(c, us, s)
    ensures var index := Index(c, u.pc); EntryIs(c, us + [u], index, Advance(c, s, u).btb[index])
  {
    var index, tag := Index(c, u.pc), Tag(c, u.pc);
    var e := Claimed(c, s.btb[index], tag);
    ClaimedEntry(c, us, index, tag, s.btb[index]);
    UsedHistory(c, us, s, u.pc);
    LastAtLonger(c, us, u, index);
    assert (us + [u])[|us|] == u;
    if !c.globalHist {
      HistoryShifted(c, us, u, index, tag, e.history);
    }
    if !c.globalTable {
      TableTrained(c, us, u, index, tag, e.machines);
    }
  }

  lemma GlobalParts(c: Config, us: seq<Update>, s: Predictor, u: Update)
    requires Refines(c, us, s)
    ensures c.globalHist ==> HistoryIs(c, us + [u], 0, 0, Advance(c, s, u).globalHistory)
    ensures c.globalTable ==> TableIs(c, us + [u], 0, 0, Advance(c, s, u).globalMachines)
  {
    UsedHistory(c, us, s, u.pc);
    if c.globalHist {
      HistoryShifted(c, us, u, 0, 0, s.globalHistory);
    }
    if c.globalTable {
      TableTrained(c, us, u, 0, 0, s.globalMachines);
    }
  }

  lemma AdvanceRefines(c: Config, us: seq<Update>, s: Predictor, u: Update)
    requires Refines(c, us, s)
    ensures Refines(c, us + [u], Advance(c, s, u))
  {
    var r, index := Advance(c, s, u), Index(c, u.pc);
    UpdatedEntry(c, us, s, u);
    GlobalParts(c, us, s, u);
    forall i | 0 <= i < |r.btb| && i != index
      ensures EntryIs(c, us + [u], i, r.btb[i])
    {
      assert EntryIs(c, us, i, s.btb[i]);
      OtherEntry(c, us, u, i, s.btb[i]);
    }
    assert (us + [u])[..|us|] == us;
  }

  /** After any sequence of updates every history register holds the last
      outcomes in its scope, every counter is the saturating fold of exactly the
      outcomes that selected it, and tags, targets and flush counts match. */
  lemma {:induction false} RunRefines(c: Config, us: seq<Update>)
    requires ConfigOk(c)
    ensures Refines(c, us, Run(c, us))
  {
    if |us| == 0 {
      InitRefines(c);
    } else {
      var n := |us| - 1;
      RunRefines(c, us[..n]);
      AdvanceRefines(c, us[..n], Run(c, us[..n]), us[n]);
      assert us[..n] + [us[n]] == us;
    }
  }

  /** The prediction is a function of the updates alone. */
  lemma PredictsFromHistory(c: Config, us: seq<Update>, pc: Word)
    requires ConfigOk(c)
    ensures Predict(c, Run(c, us), pc) == RefPredict(c, us, pc)
  {
    RunRefines(c, us);
    var s, index, tag := Run(c, us), Index(c, pc), Tag(c, pc);
    var e := s.btb[index];
    assert EntryIs(c, us, index, e);
    if tag == e.tag {
      UsedHistory(c, us, s, pc);
      GlobalScope(c, us, 0, 0, index, tag, RefSlot(c, us, pc), |us|);
    }
  }

  lemma {:induction false} UntrainedCounter(c: Config, us: seq<Update>, index: nat, tag: nat, slot: nat, n: nat)
    requires c.btbSize >= 1 && n <= |us| && !c.globalTable
    requires forall j :: 0 <= j < |us| ==> Index(c, us[j].pc) != index
    ensures CounterOutcomes(c, us, index, tag, slot, n) == []
  {
    if n > 0 {
      UntrainedCounter(c, us, index, tag, slot, n - 1);
    }
  }

  /** The valid bit is not consulted: an entry no branch has updated predicts
      target 0 for tag 0, if the counter it selects is on the taken side. */
  lemma ColdPrediction(c: Config, us: seq<Update>, pc: Word)
    requires ConfigOk(c)
    requires forall j :: 0 <= j < |us| ==> Index(c, us[j].pc) != Index(c, pc)
    ensures Predict(c, Run(c, us), pc) ==
            if Tag(c, pc) == 0 && RefCounter(c, us, Index(c, pc), 0, RefSlot(c, us, pc)) >= WT then 0 else U32(pc + 4)
  {
    PredictsFromHistory(c, us, pc);
  }

  /** Local counters nothing has trained are as they were configured. */
  lemma ColdLocalPrediction(c: Config, us: seq<Update>, pc: Word)
    requires ConfigOk(c) && !c.globalTable
    requires forall j :: 0 <= j < |us| ==> Index(c, us[j].pc) != Index(c, pc)
    ensures Predict(c, Run(c, us), pc) == if Tag(c, pc) == 0 && c.defFsm >= WT then 0 else U32(pc + 4)
  {
    ColdPrediction(c, us, pc);
    UntrainedCounter(c, us, Index(c, pc), 0, RefSlot(c, us, pc), |us|);
  }
}
