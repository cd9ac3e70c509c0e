/** The predictor as the program keeps it: tables updated in place. */
module BranchPredictor {
  import opened Bits
  import opened PredictorModel

  class PredictorObject {
    const config: Config
    const btb: array<Entry>
    const globalMachines: array<int>
    var globalHistory: nat
    var numBranches: nat
    var numFlushes: nat

    ghost function Value(): Predictor
      reads this, btb, globalMachines
    {
      Predictor(btb[..], globalMachines[..], globalHistory, numBranches, numFlushes)
    }

    ghost predicate Valid()
      reads this, btb, globalMachines
    {
      PredictorOk(config, Value())
    }

    constructor (config: Config)
      requires ConfigOk(config)
      ensures Valid() && this.config == config && Value() == Init(config)
      ensures fresh(btb) && fresh(globalMachines)
    {
      var stateSize := Pow2(config.histSize);
      var defEntry := Entry(false, 0, 0, 0, if config.globalTable then [] else DefaultTable(config));
      var machines: array<int>;
      if config.globalTable {
        machines := new int[stateSize](_ => config.defFsm);
      } else {
        machines := new int[0];
      }
      var table := new Entry[config.btbSize](_ => defEntry);
      this.config := config;
      btb, globalMachines := table, machines;
      globalHistory, numBranches, numFlushes := 0, 0, 0;
      new;
      assert btb[..] == Init(config).btb;
      assert globalMachines[..] == Init(config).globalMachines;
    }

    method Predict(pc: Word) returns (dst: Word)
      requires Valid()
      ensures dst == PredictorModel.Predict(config, Value(), pc)
    {
      var entry := btb[Index(config, pc)];
      if Tag(config, pc) != entry.tag {
        return U32(pc + 4);
      }
      var history := if config.globalHist then globalHistory else entry.history;
      SelectFits(config, history, pc);
      var histIndex := Select(config, history, pc);
      var state := if config.globalTable then globalMachines[histIndex] else entry.machines[histIndex];
      if state == SNT || state == WNT {
        return U32(pc + 4);
      }
      return entry.target;
    }

    /** A counter stepped, and stepped back if that left its range. */
    method Stepped(m: int, taken: bool) returns (r: int)
      ensures r == Saturate(m, taken)
    {
      var direction := if taken then 1 else -1;
      r := m + direction;
      if r == ST + 1 || r == SNT - 1 {
        r := r - direction;
      }
    }

    /** The first part of an update: the entry, afresh if its tag changes. */
    method Claim(found: Entry, tag: nat) returns (entry: Entry)
      ensures entry == Claimed(config, found, tag)
    {
      entry := found;
      if !entry.valid {
        entry := entry.(valid := true);
      }
      if tag != entry.tag {
        entry := entry.(tag := tag);
        if !config.globalHist {
          entry := entry.(history := 0);
        }
        if !config.globalTable {
          entry := entry.(machines := DefaultTable(config));
        }
      }
    }

    /** The second part: the selected counter, global or in the entry. */
    method Train(found: Entry, histIndex: nat, taken: bool) returns (entry: Entry)
      requires histIndex < if config.globalTable then globalMachines.Length else |found.machines|
      modifies globalMachines
      ensures if config.globalTable then
                entry == found
                && globalMachines[..] == old(globalMachines[..])[histIndex := Saturate(old(globalMachines[histIndex]), taken)]
              else
                globalMachines[..] == old(globalMachines[..])
                && entry == found.(machines := found.machines[histIndex := Saturate(found.machines[histIndex], taken)])
    {
      entry := found;
      if config.globalTable {
        globalMachines[histIndex] := Stepped(globalMachines[histIndex], taken);
      } else {
        var state := Stepped(entry.machines[histIndex], taken);
        entry := entry.(machines := entry.machines[histIndex := state]);
      }
    }

    /** The third part: the history register, global or in the entry. */
    method ShiftHistory(found: Entry, taken: bool) returns (entry: Entry)
      modifies this`globalHistory
      ensures if config.globalHist then
                entry == found && globalHistory == ShiftIn(config, old(globalHistory), taken)
              else
                globalHistory == old(globalHistory) && entry == found.(history := ShiftIn(config, found.history, taken))
    {
      entry := found;
      if config.globalHist {
        globalHistory := ShiftIn(config, globalHistory, taken);
      } else {
        entry := entry.(history := ShiftIn(config, entry.history, taken));
      }
    }

    method Update(pc: Word, targetPc: Word, taken: bool, predDst: Word)
      requires Valid()
      modifies this, btb, globalMachines
      ensures Valid()
      ensures Value() == Advance(config, old(Value()), PredictorModel.Update(pc, targetPc, taken, predDst))
    {
      ghost var s := Value();
      numBranches := numBranches + 1;
      var index := Index(config, pc);
      var entry := Claim(btb[index], Tag(config, pc));
      var history := if config.globalHist then globalHistory else entry.history;
      SelectFits(config, history, pc);
      var histIndex := Select(config, history, pc);
      entry := entry.(target := targetPc);
      if (taken && targetPc != predDst) || (!taken && predDst != U32(pc + 4)) {
        numFlushes := numFlushes + 1;
      }
      entry := Train(entry, histIndex, taken);
      entry := ShiftHistory(entry, taken);
      btb[index] := entry;
      AdvancedIs(config, s, PredictorModel.Update(pc, targetPc, taken, predDst), entry, Value());
    }
  }

  /** r, part by part, is s after an update that leaves the entry as given. */
  lemma AdvancedIs(c: Config, s: Predictor, u: Update, entry: Entry, r: Predictor)
    requires PredictorOk(c, s)
    requires var slot, e := UsedSlot(c, s, u.pc), Claimed(c, s.btb[Index(c, u.pc)], Tag(c, u.pc));
             && r.btb == s.btb[Index(c, u.pc) := entry]
             && entry.valid && entry.tag == e.tag && entry.target == u.target
             && (if c.globalHist then entry.history == e.history && r.globalHistory == ShiftIn(c, s.globalHistory, u.taken)
                 else entry.history == ShiftIn(c, e.history, u.taken) && r.globalHistory == s.globalHistory)
             && (if c.globalTable then
                   entry.machines == e.machines
                   && r.globalMachines == s.globalMachines[slot := Saturate(s.globalMachines[slot], u.taken)]
                 else
                   entry.machines == e.machines[slot := Saturate(e.machines[slot], u.taken)]
                   && r.globalMachines == s.globalMachines)
             && r.branches == s.branches + 1 && r.flushes == s.flushes + if Flushes(u) then 1 else 0
    ensures r == Advance(c, s, u) && PredictorOk(c, r)
  {
  }
}
