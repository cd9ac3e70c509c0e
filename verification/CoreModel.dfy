/** The multithreaded core on values: instruction execution, the two
    schedulers as step functions, and each program run alone. */
module CoreModel {
  import opened Bits

  const REGS_COUNT := 8

  datatype Opcode = NOP | ADD | SUB | ADDI | SUBI | LOAD | STORE | HALT

  datatype Instruction = Instruction(opcode: Opcode, dst: int, src1: int, src2: int, isImm: bool)

  type Program = seq<Instruction>

  predicate IsReg(i: int) {
    0 <= i < REGS_COUNT
  }

  /** The instruction names existing registers. */
  predicate Executable(inst: Instruction) {
    match inst.opcode
    case NOP => true
    case HALT => true
    case ADD => IsReg(inst.dst) && IsReg(inst.src1) && IsReg(inst.src2)
    case SUB => IsReg(inst.dst) && IsReg(inst.src1) && IsReg(inst.src2)
    case ADDI => IsReg(inst.dst) && IsReg(inst.src1)
    case SUBI => IsReg(inst.dst) && IsReg(inst.src1)
    case LOAD => IsReg(inst.dst) && IsReg(inst.src1) && (inst.isImm || IsReg(inst.src2))
    case STORE => IsReg(inst.dst) && IsReg(inst.src1) && (inst.isImm || IsReg(inst.src2))
  }

  function HaltFrom(prog: Program, i: nat): (r: nat)
    requires i <= |prog|
    ensures i <= r <= |prog|
    ensures forall k :: i <= k < r ==> prog[k].opcode != HALT
    ensures r < |prog| ==> prog[r].opcode == HALT
    decreases |prog| - i
  {
    if i == |prog| || prog[i].opcode == HALT then i else HaltFrom(prog, i + 1)
  }

  /** The position of the first HALT, or the length if there is none. */
  function HaltIndex(prog: Program): (r: nat)
    ensures r <= |prog|
    ensures forall k :: 0 <= k < r ==> prog[k].opcode != HALT
    ensures r < |prog| ==> prog[r].opcode == HALT
  {
    HaltFrom(prog, 0)
  }

  /** Straight-line code up to a HALT. */
  ghost predicate RunsToHalt(prog: Program) {
    HaltIndex(prog) < |prog| && forall k :: 0 <= k <= HaltIndex(prog) ==> Executable(prog[k])
  }

  // ---------- execution of one instruction ----------

  /** Division of C, toward zero. */
  function DivC(a: int, b: nat): int
    requires b > 0
  {
    if a >= 0 then a / b else -((-a) / b)
  }

  predicate IsMem(op: Opcode) {
    op == LOAD || op == STORE
  }

  /** The index into the data array of an address. */
  function DataIndex(address: Word, dataStart: Word): int {
    DivC(I32(address - dataStart), 4)
  }

  /** The data word a LOAD or STORE accesses. */
  function WordIndex(inst: Instruction, regs: seq<int>, dataStart: Word): int
    requires |regs| == REGS_COUNT && Executable(inst) && IsMem(inst.opcode)
  {
    var offset := if inst.isImm then inst.src2 else regs[inst.src2];
    var base := if inst.opcode == LOAD then regs[inst.src1] else regs[inst.dst];
    DataIndex(U32(base + offset), dataStart)
  }

  /** A word of the data array; the program reads no word outside it (InBounds). */
  function ReadWord(mem: seq<int>, w: int): int {
    if 0 <= w < |mem| then mem[w] else 0
  }

  function WriteWord(mem: seq<int>, w: int, v: int): (r: seq<int>)
    ensures |r| == |mem|
  {
    if 0 <= w < |mem| then mem[w := v] else mem
  }

  function ExecuteRegs(inst: Instruction, regs: seq<int>, mem: seq<int>, dataStart: Word): (r: seq<int>)
    requires |regs| == REGS_COUNT && Executable(inst)
    ensures |r| == REGS_COUNT
  {
    match inst.opcode
    case ADD => regs[inst.dst := I32(regs[inst.src1] + regs[inst.src2])]
    case SUB => regs[inst.dst := I32(regs[inst.src1] - regs[inst.src2])]
    case ADDI => regs[inst.dst := I32(regs[inst.src1] + inst.src2)]
    case SUBI => regs[inst.dst := I32(regs[inst.src1] - inst.src2)]
    case LOAD => regs[inst.dst := ReadWord(mem, WordIndex(inst, regs, dataStart))]
    case _ => regs
  }

  function ExecuteMem(inst: Instruction, regs: seq<int>, mem: seq<int>, dataStart: Word): (r: seq<int>)
    requires |regs| == REGS_COUNT && Executable(inst)
    ensures |r| == |mem|
  {
    if inst.opcode == STORE then WriteWord(mem, WordIndex(inst, regs, dataStart), regs[inst.src1]) else mem
  }

  // ---------- a thread ----------

  /** `start` is the cycle in which the current instruction started, `op` its opcode. */
  datatype Thread = Thread(pc: nat, regs: seq<int>, halted: bool, start: nat, op: Opcode)

  const ZEROS: seq<int> := [0, 0, 0, 0, 0, 0, 0, 0]

  const NEW_THREAD := Thread(0, ZEROS, false, 0, NOP)

  ghost predicate ThreadOk(prog: Program, th: Thread) {
    && |th.regs| == REGS_COUNT
    && th.pc <= HaltIndex(prog) + 1 && (th.halted <==> th.pc == HaltIndex(prog) + 1)
  }

  ghost function ExecuteInst(prog: Program, th: Thread, mem: seq<int>, dataStart: Word, cycle: nat): (r: Thread)
    requires RunsToHalt(prog) && ThreadOk(prog, th) && !th.halted
    ensures ThreadOk(prog, r)
  {
    var inst := prog[th.pc];
    Thread(th.pc + 1, ExecuteRegs(inst, th.regs, mem, dataStart), inst.opcode == HALT, cycle + 1, inst.opcode)
  }

  // ---------- the schedulers ----------

  datatype Config = Config(blocked: bool, loadLat: nat, storeLat: nat, penalty: nat,
                           dataStart: Word, progs: seq<Program>)

  /** `idle` and `event` are the locals of the run loops. */
  datatype Core = Core(cycle: nat, issued: nat, current: nat, threads: seq<Thread>, mem: seq<int>,
                       idle: bool, event: bool)

  ghost predicate ConfigOk(c: Config) {
    |c.progs| >= 1 && forall t :: 0 <= t < |c.progs| ==> RunsToHalt(c.progs[t])
  }

  function Latency(c: Config, op: Opcode): nat {
    if op == LOAD then c.loadLat else if op == STORE then c.storeLat else 0
  }

  predicate AllHalted(threads: seq<Thread>) {
    forall t :: 0 <= t < |threads| ==> threads[t].halted
  }

  /** The thread's current instruction has finished. */
  predicate Ready(c: Config, th: Thread, cycle: nat) {
    cycle - th.start >= Latency(c, th.op)
  }

  predicate Eligible(c: Config, th: Thread, cycle: nat) {
    !th.halted && Ready(c, th, cycle)
  }

  ghost predicate StateOk(c: Config, s: Core) {
    && ConfigOk(c) && |s.threads| == |c.progs| && s.current < |s.threads|
    && (forall t :: 0 <= t < |s.threads| ==> ThreadOk(c.progs[t], s.threads[t]) && s.threads[t].start <= s.cycle)
  }

  /** The state at the head of a run loop: unless idle or done, the current thread can be issued. */
  ghost predicate CoreOk(c: Config, s: Core) {
    StateOk(c, s) && (s.idle || AllHalted(s.threads) || Eligible(c, s.threads[s.current], s.cycle))
  }

  /** The thread i places after current, cyclically. */
  function Following(current: nat, i: nat, n: nat): (r: nat)
    requires current < n && i <= n
    ensures r == if current + i < n then current + i else current + i - n
  {
    (current + i) % n
  }

  /** The distance from current, at least i, of the first eligible thread; N + 1 if none. */
  function FirstEligible(c: Config, threads: seq<Thread>, cycle: nat, current: nat, i: nat): (r: nat)
    requires current < |threads| && 1 <= i <= |threads| + 1
    ensures i <= r <= |threads| + 1
    ensures r <= |threads| ==> Eligible(c, threads[Following(current, r, |threads|)], cycle)
    ensures forall k {:trigger Following(current, k, |threads|)} :: i <= k < r ==>
              !Eligible(c, threads[Following(current, k, |threads|)], cycle)
    decreases |threads| + 1 - i
  {
    if i == |threads| + 1 || Eligible(c, threads[Following(current, i, |threads|)], cycle) then i
    else FirstEligible(c, threads, cycle, current, i + 1)
  }

  /** switch_thread: the new current thread, and whether the core is idle. */
  ghost function SwitchThread(c: Config, s: Core): (r: (nat, bool))
    requires StateOk(c, s)
    ensures r.0 < |s.threads|
  {
    if c.blocked && Eligible(c, s.threads[s.current], s.cycle) then (s.current, false)
    else
      var i := FirstEligible(c, s.threads, s.cycle, s.current, 1);
      if i <= |s.threads| then (Following(s.current, i, |s.threads|), false) else (s.current, true)
  }

  /** The switch leaves the core at an eligible thread, or idle because there is none. */
  lemma SwitchIs(c: Config, s: Core)
    requires StateOk(c, s)
    ensures var (current, idle) := SwitchThread(c, s);
            if idle then current == s.current && forall t :: 0 <= t < |s.threads| ==> !Eligible(c, s.threads[t], s.cycle)
            else Eligible(c, s.threads[current], s.cycle)
  {
    var n := |s.threads|;
    if SwitchThread(c, s).1 {
      forall t | 0 <= t < n
        ensures !Eligible(c, s.threads[t], s.cycle)
      {
        var i := if t > s.current then t - s.current else t + n - s.current;
        assert Following(s.current, i, n) == t;
      }
    }
  }

  /** execute_inst on the current thread. */
  ghost function Issue(c: Config, s: Core): (r: Core)
    requires StateOk(c, s) && !s.threads[s.current].halted
  {
    var th := s.threads[s.current];
    var prog := c.progs[s.current];
    var th' := ExecuteInst(prog, th, s.mem, c.dataStart, s.cycle);
    s.(issued := s.issued + 1,
       threads := s.threads[s.current := th'],
       mem := ExecuteMem(prog[th.pc], th.regs, s.mem, c.dataStart),
       event := th'.op == LOAD || th'.op == STORE || th'.op == HALT)
  }

  /** The first half of an iteration: an instruction, unless idle, and a cycle. */
  ghost function Tick(c: Config, s: Core): (r: Core)
    requires CoreOk(c, s) && !AllHalted(s.threads)
    ensures StateOk(c, r)
  {
    var s1 := if !s.idle then Issue(c, s) else s;
    s1.(cycle := s1.cycle + 1)
  }

  /** One iteration of run_program_finegrained. */
  ghost function StepFinegrained(c: Config, s: Core): (r: Core)
    requires CoreOk(c, s) && !AllHalted(s.threads) && !c.blocked
    ensures CoreOk(c, r)
  {
    var s1 := Tick(c, s);
    SwitchIs(c, s1);
    var (current, idle) := SwitchThread(c, s1);
    s1.(current := current, idle := idle)
  }

  /** One iteration of run_program_blocked. */
  ghost function StepBlocked(c: Config, s: Core): (r: Core)
    requires CoreOk(c, s) && !AllHalted(s.threads) && c.blocked
    ensures CoreOk(c, r)
  {
    var s1 := Tick(c, s);
    if s1.event || s1.idle then
      SwitchIs(c, s1);
      var (current, idle) := SwitchThread(c, s1);
      var penalty := if !idle && s1.current != current then c.penalty else 0;
      s1.(current := current, idle := idle, cycle := s1.cycle + penalty)
    else s1
  }

  ghost function Step(c: Config, s: Core): (r: Core)
    requires CoreOk(c, s)
    ensures CoreOk(c, r)
  {
    if AllHalted(s.threads) then s
    else if c.blocked then StepBlocked(c, s)
    else StepFinegrained(c, s)
  }

  /** A context switch changes neither the threads nor the memory. */
  lemma StepThreads(c: Config, s: Core)
    requires CoreOk(c, s) && !AllHalted(s.threads)
    ensures var s1, r := if s.idle then s else Issue(c, s), Step(c, s);
            r.threads == s1.threads && r.mem == s1.mem && r.issued == s1.issued
  {
  }

  function Init(c: Config, mem: seq<int>): Core {
    Core(0, 0, 0, seq(|c.progs|, _ => NEW_THREAD), mem, false, false)
  }

  /** State i + 1 of a history is one iteration after state i. */
  ghost predicate StepsAt(c: Config, h: seq<Core>, i: nat)
    requires i + 1 < |h|
  {
    CoreOk(c, h[i]) && h[i + 1] == Step(c, h[i])
  }

  /** h is the history of a run from memory mem: the states at the head of the loop. */
  ghost predicate IsRun(c: Config, mem: seq<int>, h: seq<Core>) {
    && ConfigOk(c) && |h| >= 1 && h[0] == Init(c, mem)
    && (forall i {:trigger StepsAt(c, h, i)} :: 0 <= i < |h| - 1 ==> StepsAt(c, h, i))
  }

  lemma RunIsOk(c: Config, mem: seq<int>, h: seq<Core>, i: nat)
    requires IsRun(c, mem, h) && i < |h|
    ensures CoreOk(c, h[i])
  {
    if i > 0 {
      assert StepsAt(c, h, i - 1);
    }
  }

  lemma RunExtends(c: Config, mem: seq<int>, h: seq<Core>)
    requires IsRun(c, mem, h)
    ensures CoreOk(c, h[|h| - 1]) && IsRun(c, mem, h + [Step(c, h[|h| - 1])])
  {
    RunIsOk(c, mem, h, |h| - 1);
    var g := h + [Step(c, h[|h| - 1])];
    forall i | 0 <= i < |g| - 1
      ensures StepsAt(c, g, i)
    {
      if i < |h| - 1 {
        assert StepsAt(c, h, i);
      }
    }
  }

  // ---------- one program alone ----------

  datatype Solo = Solo(pc: nat, regs: seq<int>, halted: bool, mem: seq<int>)

  ghost predicate SoloOk(prog: Program, s: Solo) {
    ThreadOk(prog, Thread(s.pc, s.regs, s.halted, 0, NOP))
  }

  ghost function SoloStep(prog: Program, dataStart: Word, s: Solo): (r: Solo)
    requires RunsToHalt(prog) && SoloOk(prog, s)
    ensures SoloOk(prog, r)
  {
    if s.halted then s
    else
      var inst := prog[s.pc];
      Solo(s.pc + 1, ExecuteRegs(inst, s.regs, s.mem, dataStart), inst.opcode == HALT,
           ExecuteMem(inst, s.regs, s.mem, dataStart))
  }

  /** The program run alone from mem, after n instructions. */
  ghost function SoloRun(prog: Program, dataStart: Word, mem: seq<int>, n: nat): (r: Solo)
    requires RunsToHalt(prog)
    ensures SoloOk(prog, r)
  {
    if n == 0 then Solo(0, ZEROS, false, mem)
    else SoloStep(prog, dataStart, SoloRun(prog, dataStart, mem, n - 1))
  }
}
