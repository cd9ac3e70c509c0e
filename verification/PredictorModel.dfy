/** The two-level branch predictor, on values. */
module PredictorModel {
  import opened Bits

  // The states of a counter, from strongly not taken to strongly taken.
  const SNT := 0
  const WNT := 1
  const WT := 2
  const ST := 3

  datatype Share = NoShare | UsingLsb | UsingMid

  datatype Config = Config(btbSize: nat, histSize: nat, tagSize: nat, defFsm: int,
                           globalHist: bool, globalTable: bool, share: Share)

  datatype Entry = Entry(valid: bool, tag: nat, target: Word, history: nat, machines: seq<int>)

  datatype Predictor = Predictor(btb: seq<Entry>, globalMachines: seq<int>, globalHistory: nat,
                                 branches: nat, flushes: nat)

  /** One resolved branch. */
  datatype Update = Update(pc: Word, target: Word, taken: bool, predDst: Word)

  predicate IsCounter(m: int) {
    SNT <= m <= ST
  }

  /** A power-of-two table, and shifts that stay within a word. */
  ghost predicate ConfigOk(c: Config) {
    && c.btbSize >= 1 && Pow2(Log2(c.btbSize)) == c.btbSize
    && 2 + Log2(c.btbSize) < 32 && c.tagSize < 32 && c.histSize < 31 && IsCounter(c.defFsm)
  }

  function Index(c: Config, pc: Word): nat
    requires c.btbSize >= 1
  {
    GetBits(pc, 2, Log2(c.btbSize))
  }

  function Tag(c: Config, pc: Word): nat
    requires c.btbSize >= 1
  {
    GetBits(pc, 2 + Log2(c.btbSize), c.tagSize)
  }

  /** The counter selected by a history register, the branch's bits mixed in if shared. */
  function Select(c: Config, history: nat, pc: Word): nat {
    match c.share
    case NoShare => history
    case UsingLsb => Xor(history, GetBits(pc, 2, c.histSize))
    case UsingMid => Xor(history, GetBits(pc, 16, c.histSize))
  }

  lemma SelectFits(c: Config, history: nat, pc: Word)
    requires history < Pow2(c.histSize)
    ensures Select(c, history, pc) < Pow2(c.histSize)
  {
    XorFits(history, GetBits(pc, 2, c.histSize), c.histSize);
    XorFits(history, GetBits(pc, 16, c.histSize), c.histSize);
  }

  /** Bit i of the selected index is bit i of the history, flipped if sharing
      and bit 2 + i, or 16 + i, of the branch's address is set. */
  lemma SelectBits(c: Config, history: nat, pc: Word, i: nat)
    ensures Bit(Select(c, history, pc), i) <==>
            match c.share
            case NoShare => Bit(history, i)
            case UsingLsb => Bit(history, i) != (i < c.histSize && Bit(pc, 2 + i))
            case UsingMid => Bit(history, i) != (i < c.histSize && Bit(pc, 16 + i))
  {
    var start := if c.share == UsingMid then 16 else 2;
    XorBits(history, GetBits(pc, start, c.histSize), i);
    GetBitsBits(pc, start, c.histSize, i);
  }

  lemma ShiftedTwice(pc: Word, n: nat)
    ensures ShiftRight(pc, 2 + n) == ShiftRight(pc / 4, n)
  {
    ShiftTwice(pc, 2 + n);
    ShiftTwice(pc / 2, 1 + n);
  }

  /** The bits of the word address that index and tag take together. */
  function EntryBits(c: Config, pc: Word): nat
    requires c.btbSize >= 1
  {
    (pc / 4) % Pow2(Log2(c.btbSize) + c.tagSize)
  }

  /** Two branches share entry and tag if and only if their word addresses agree
      in those bits. */
  lemma SharesEntry(c: Config, pc: Word, pc': Word)
    requires c.btbSize >= 1
    ensures Index(c, pc) == Index(c, pc') && Tag(c, pc) == Tag(c, pc') <==>
            EntryBits(c, pc) == EntryBits(c, pc')
  {
    EntryOf(c, pc);
    EntryOf(c, pc');
    SameSplit(Tag(c, pc), Index(c, pc), Tag(c, pc'), Index(c, pc'), Pow2(Log2(c.btbSize)));
  }

  /** The low bits of the word address are the index, the next ones the tag. */
  lemma EntryOf(c: Config, pc: Word)
    requires c.btbSize >= 1
    ensures EntryBits(c, pc) == Tag(c, pc) * Pow2(Log2(c.btbSize)) + Index(c, pc)
  {
    ShiftedTwice(pc, 0);
    ShiftedTwice(pc, Log2(c.btbSize));
    ModSplit(pc / 4, Log2(c.btbSize), c.tagSize);
  }

  ghost predicate TableOk(c: Config, machines: seq<int>) {
    |machines| == Pow2(c.histSize) && forall k :: 0 <= k < |machines| ==> IsCounter(machines[k])
  }

  /** All indices stay in range. */
  ghost predicate PredictorOk(c: Config, s: Predictor) {
    && ConfigOk(c) && |s.btb| == c.btbSize
    && (if c.globalTable then TableOk(c, s.globalMachines)
        else forall i :: 0 <= i < |s.btb| ==> TableOk(c, s.btb[i].machines))
    && (if c.globalHist then s.globalHistory < Pow2(c.histSize)
        else forall i :: 0 <= i < |s.btb| ==> s.btb[i].history < Pow2(c.histSize))
  }

  function DefaultTable(c: Config): seq<int> {
    seq(Pow2(c.histSize), _ => c.defFsm)
  }

  function Init(c: Config): Predictor {
    Predictor(seq(c.btbSize, _ => Entry(false, 0, 0, 0, if c.globalTable then [] else DefaultTable(c))),
              if c.globalTable then DefaultTable(c) else [], 0, 0, 0)
  }

  /** A saturating step of a counter. */
  function Saturate(m: int, taken: bool): int {
    var direction := if taken then 1 else -1;
    if m + direction == ST + 1 || m + direction == SNT - 1 then m else m + direction
  }

  /** Shifting an outcome into a history register. */
  function ShiftIn(c: Config, history: nat, taken: bool): nat {
    (2 * history + if taken then 1 else 0) % Pow2(c.histSize)
  }

  function Predict(c: Config, s: Predictor, pc: Word): Word
    requires PredictorOk(c, s)
  {
    var entry := s.btb[Index(c, pc)];
    if Tag(c, pc) != entry.tag then U32(pc + 4)
    else
      var history := if c.globalHist then s.globalHistory else entry.history;
      SelectFits(c, history, pc);
      var slot := Select(c, history, pc);
      var state := if c.globalTable then s.globalMachines[slot] else entry.machines[slot];
      if state == SNT || state == WNT then U32(pc + 4) else entry.target
  }

  /** The entry an update works on: a new tag starts it afresh. */
  function Claimed(c: Config, entry: Entry, tag: nat): Entry {
    if tag == entry.tag then entry.(valid := true)
    else Entry(true, tag, entry.target,
               if c.globalHist then entry.history else 0,
               if c.globalTable then entry.machines else DefaultTable(c))
  }

  /** The counters an update at pc trains: the global ones, or its entry's. */
  function UsedTable(c: Config, s: Predictor, pc: Word): (r: seq<int>)
    requires PredictorOk(c, s)
    ensures TableOk(c, r)
  {
    if c.globalTable then s.globalMachines else Claimed(c, s.btb[Index(c, pc)], Tag(c, pc)).machines
  }

  /** The one of them it trains. */
  function UsedSlot(c: Config, s: Predictor, pc: Word): (r: nat)
    requires PredictorOk(c, s)
    ensures r < Pow2(c.histSize)
  {
    var entry := Claimed(c, s.btb[Index(c, pc)], Tag(c, pc));
    var history := if c.globalHist then s.globalHistory else entry.history;
    SelectFits(c, history, pc);
    Select(c, history, pc)
  }

  predicate Flushes(u: Update) {
    (u.taken && u.target != u.predDst) || (!u.taken && u.predDst != U32(u.pc + 4))
  }

  function Advance(c: Config, s: Predictor, u: Update): (r: Predictor)
    requires PredictorOk(c, s)
    ensures PredictorOk(c, r)
  {
    var index := Index(c, u.pc);
    var entry := Claimed(c, s.btb[index], Tag(c, u.pc));
    var machines, slot := UsedTable(c, s, u.pc), UsedSlot(c, s, u.pc);
    var machines' := machines[slot := Saturate(machines[slot], u.taken)];
    var history := if c.globalHist then s.globalHistory else entry.history;
    var history' := ShiftIn(c, history, u.taken);
    var entry' := Entry(true, entry.tag, u.target,
                        if c.globalHist then entry.history else history',
                        if c.globalTable then entry.machines else machines');
    Predictor(s.btb[index := entry'],
              if c.globalTable then machines' else s.globalMachines,
              if c.globalHist then history' else s.globalHistory,
              s.branches + 1,
              if Flushes(u) then s.flushes + 1 else s.flushes)
  }

  /** The predictor after any sequence of updates. */
  function Run(c: Config, us: seq<Update>): (r: Predictor)
    requires ConfigOk(c)
    ensures PredictorOk(c, r)
  {
    if |us| == 0 then Init(c) else Advance(c, Run(c, us[..|us| - 1]), us[|us| - 1])
  }
}
