/** What the instructions of the core mean: arithmetic modulo the word size,
    byte addresses, and the laws that relate one instruction to another. */
module CoreInstructions {
  import opened Bits
  import opened CoreModel

  predicate IsInt32(x: int) {
    -0x8000_0000 <= x < 0x8000_0000
  }

  /** x and y are the same 32-bit word. */
  predicate SameWord(x: int, y: int) {
    (x - y) % U32_SIZE == 0
  }

  // ---------- addresses ----------

  lemma QuarterIs(d: int, w: nat)
    ensures DivC(d, 4) == w <==> if w == 0 then -4 < d < 4 else 4 * w <= d < 4 * w + 4
  {
  }

  /** Word w of the data array takes the four bytes from dataStart + 4w on; the
      three bytes before dataStart, where division truncates, count as word 0. */
  lemma DataIndexIs(address: Word, dataStart: Word, w: nat)
    ensures var d := I32(address - dataStart);
            DataIndex(address, dataStart) == w <==> if w == 0 then -4 < d < 4 else 4 * w <= d < 4 * w + 4
  {
    QuarterIs(I32(address - dataStart), w);
  }

  /** The address is that of word w, on any 32-bit wrap-around. */
  predicate Addresses(address: int, dataStart: Word, w: nat) {
    SameWord(address, dataStart + 4 * w)
  }

  lemma WordAt(address: int, dataStart: Word, w: nat)
    requires w < 0x2000_0000 && Addresses(address, dataStart, w)
    ensures DataIndex(U32(address), dataStart) == w
  {
    I32Unique(U32(address) - dataStart, 4 * w);
    I32Is(4 * w);
    DataIndexIs(U32(address), dataStart, w);
  }

  // ---------- single instructions ----------

  /** The address of a LOAD, or of a STORE: a register plus the offset. */
  function LoadAddress(inst: Instruction, regs: seq<int>): int
    requires |regs| == REGS_COUNT && Executable(inst) && inst.opcode == LOAD
  {
    regs[inst.src1] + if inst.isImm then inst.src2 else regs[inst.src2]
  }

  function StoreAddress(inst: Instruction, regs: seq<int>): int
    requires |regs| == REGS_COUNT && Executable(inst) && inst.opcode == STORE
  {
    regs[inst.dst] + if inst.isImm then inst.src2 else regs[inst.src2]
  }

  lemma LoadedWord(load: Instruction, regs: seq<int>, mem: seq<int>, dataStart: Word, w: nat)
    requires |regs| == REGS_COUNT && Executable(load) && load.opcode == LOAD
    requires w < |mem| && w < 0x2000_0000 && Addresses(LoadAddress(load, regs), dataStart, w)
    ensures ExecuteRegs(load, regs, mem, dataStart)[load.dst] == mem[w]
  {
    WordAt(LoadAddress(load, regs), dataStart, w);
  }

  /** What each opcode leaves in its destination register. */
  ghost predicate DstIs(inst: Instruction, regs: seq<int>, mem: seq<int>, dataStart: Word, r: int)
    requires |regs| == REGS_COUNT && Executable(inst)
  {
    match inst.opcode
    case ADD => IsInt32(r) && SameWord(r, regs[inst.src1] + regs[inst.src2])
    case SUB => IsInt32(r) && SameWord(r, regs[inst.src1] - regs[inst.src2])
    case ADDI => IsInt32(r) && SameWord(r, regs[inst.src1] + inst.src2)
    case SUBI => IsInt32(r) && SameWord(r, regs[inst.src1] - inst.src2)
    case LOAD =>
      forall w: nat :: w < |mem| && w < 0x2000_0000 && Addresses(LoadAddress(inst, regs), dataStart, w) ==> r == mem[w]
    case NOP => true
    case STORE => true
    case HALT => true
  }

  predicate HasDst(op: Opcode) {
    op == ADD || op == SUB || op == ADDI || op == SUBI || op == LOAD
  }

  /** Arithmetic is exact modulo the word size and stays an int, a LOAD takes the
      addressed word, and no register but the destination changes. */
  lemma RegistersAfter(inst: Instruction, regs: seq<int>, mem: seq<int>, dataStart: Word)
    requires |regs| == REGS_COUNT && Executable(inst)
    ensures var r := ExecuteRegs(inst, regs, mem, dataStart);
            && (HasDst(inst.opcode) ==> IsReg(inst.dst) && DstIs(inst, regs, mem, dataStart, r[inst.dst]))
            && (forall k :: 0 <= k < REGS_COUNT && !(HasDst(inst.opcode) && k == inst.dst) ==> r[k] == regs[k])
  {
    match inst.opcode
    case ADD => I32Is(regs[inst.src1] + regs[inst.src2]);
    case SUB => I32Is(regs[inst.src1] - regs[inst.src2]);
    case ADDI => I32Is(regs[inst.src1] + inst.src2);
    case SUBI => I32Is(regs[inst.src1] - inst.src2);
    case LOAD =>
      forall w: nat | w < |mem| && w < 0x2000_0000 && Addresses(LoadAddress(inst, regs), dataStart, w)
        ensures ExecuteRegs(inst, regs, mem, dataStart)[inst.dst] == mem[w]
      {
        LoadedWord(inst, regs, mem, dataStart, w);
      }
    case _ =>
  }

  /** A STORE changes the addressed word and no other; nothing else writes memory. */
  lemma MemoryAfter(inst: Instruction, regs: seq<int>, mem: seq<int>, dataStart: Word, w: nat)
    requires |regs| == REGS_COUNT && Executable(inst) && w < |mem| && w < 0x2000_0000
    requires inst.opcode == STORE ==> Addresses(StoreAddress(inst, regs), dataStart, w)
    ensures ExecuteMem(inst, regs, mem, dataStart) ==
            if inst.opcode == STORE then mem[w := regs[inst.src1]] else mem
  {
    if inst.opcode == STORE {
      WordAt(StoreAddress(inst, regs), dataStart, w);
    }
  }

  // ---------- laws ----------

  /** ADD does not depend on the order of its sources. */
  lemma AddCommutes(inst: Instruction, regs: seq<int>, mem: seq<int>, dataStart: Word)
    requires |regs| == REGS_COUNT && Executable(inst) && inst.opcode == ADD
    ensures ExecuteRegs(inst.(src1 := inst.src2, src2 := inst.src1), regs, mem, dataStart)
            == ExecuteRegs(inst, regs, mem, dataStart)
  {
  }

  /** SUB of the same source undoes ADD, whatever the overflow. */
  lemma SubUndoesAdd(add: Instruction, sub: Instruction, regs: seq<int>, mem: seq<int>, dataStart: Word)
    requires |regs| == REGS_COUNT && Executable(add) && Executable(sub) && add.opcode == ADD && sub.opcode == SUB
    requires IsInt32(regs[add.src1]) && add.dst != add.src2 && sub.src1 == add.dst && sub.src2 == add.src2
    ensures var r := ExecuteRegs(add, regs, mem, dataStart);
            ExecuteRegs(sub, r, mem, dataStart)[sub.dst] == regs[add.src1]
  {
    RegistersAfter(add, regs, mem, dataStart);
    var r := ExecuteRegs(add, regs, mem, dataStart);
    I32Unique(r[sub.src1] - r[sub.src2], regs[add.src1]);
    I32Is(regs[add.src1]);
  }

  /** SUBI undoes ADDI. */
  lemma SubiUndoesAddi(addi: Instruction, subi: Instruction, regs: seq<int>, mem: seq<int>, dataStart: Word)
    requires |regs| == REGS_COUNT && Executable(addi) && Executable(subi) && addi.opcode == ADDI && subi.opcode == SUBI
    requires IsInt32(regs[addi.src1]) && subi.src1 == addi.dst && subi.src2 == addi.src2
    ensures var r := ExecuteRegs(addi, regs, mem, dataStart);
            ExecuteRegs(subi, r, mem, dataStart)[subi.dst] == regs[addi.src1]
  {
    RegistersAfter(addi, regs, mem, dataStart);
    var r := ExecuteRegs(addi, regs, mem, dataStart);
    I32Unique(r[subi.src1] - subi.src2, regs[addi.src1]);
    I32Is(regs[addi.src1]);
  }

  /** A LOAD at the address of a STORE, whatever registers it is computed from,
      returns the stored value; other words are as before. */
  lemma LoadAfterStore(store: Instruction, load: Instruction, regs: seq<int>, regs': seq<int>, mem: seq<int>,
                       dataStart: Word, w: nat)
    requires |regs| == REGS_COUNT && Executable(store) && store.opcode == STORE
    requires |regs'| == REGS_COUNT && Executable(load) && load.opcode == LOAD
    requires w < |mem| && w < 0x2000_0000
    requires Addresses(StoreAddress(store, regs), dataStart, w) && Addresses(LoadAddress(load, regs'), dataStart, w)
    ensures var m := ExecuteMem(store, regs, mem, dataStart);
            && ExecuteRegs(load, regs', m, dataStart)[load.dst] == regs[store.src1]
            && (forall v :: 0 <= v < |mem| && v != w ==> m[v] == mem[v])
  {
    MemoryAfter(store, regs, mem, dataStart, w);
    LoadedWord(load, regs', ExecuteMem(store, regs, mem, dataStart), dataStart, w);
  }

  // ---------- whole runs ----------

  ghost predicate AllInt32(xs: seq<int>) {
    forall k :: 0 <= k < |xs| ==> IsInt32(xs[k])
  }

  lemma StaysInt32(inst: Instruction, regs: seq<int>, mem: seq<int>, dataStart: Word)
    requires |regs| == REGS_COUNT && Executable(inst) && AllInt32(regs) && AllInt32(mem)
    ensures AllInt32(ExecuteRegs(inst, regs, mem, dataStart)) && AllInt32(ExecuteMem(inst, regs, mem, dataStart))
  {
    RegistersAfter(inst, regs, mem, dataStart);
  }

  /** From words of 32 bits every register and word stays one. */
  lemma {:induction false} SoloInt32(prog: Program, dataStart: Word, mem: seq<int>, n: nat)
    requires RunsToHalt(prog) && AllInt32(mem)
    ensures var s := SoloRun(prog, dataStart, mem, n); AllInt32(s.regs) && AllInt32(s.mem)
  {
    if n > 0 {
      SoloInt32(prog, dataStart, mem, n - 1);
      var s := SoloRun(prog, dataStart, mem, n - 1);
      if !s.halted {
        StaysInt32(prog[s.pc], s.regs, s.mem, dataStart);
      }
    }
  }

  /** Registers start at zero: a first ADDI leaves its immediate. */
  lemma FirstImmediate(prog: Program, dataStart: Word, mem: seq<int>)
    requires RunsToHalt(prog) && prog[0].opcode == ADDI && IsInt32(prog[0].src2)
    ensures SoloRun(prog, dataStart, mem, 1).regs == ZEROS[prog[0].dst := prog[0].src2]
    ensures forall k :: 0 <= k < REGS_COUNT ==> ZEROS[k] == 0
  {
    assert SoloRun(prog, dataStart, mem, 0) == Solo(0, ZEROS, false, mem);
    assert SoloRun(prog, dataStart, mem, 1) == SoloStep(prog, dataStart, SoloRun(prog, dataStart, mem, 0));
    assert 0 <= HaltIndex(prog) && Executable(prog[0]);
    I32Is(prog[0].src2);
  }
}
