/** The threads and the handler as the program keeps them: objects updated in
    place, run by loops. Each method is proved against the step functions. */
module ThreadHandler {
  import opened Bits
  import opened CoreModel
  import I = CoreIndependence
  import Y = CoreCycles

  class ThreadContext {
    const threadId: nat
    var currentInst: Instruction
    var instAddress: nat
    var regFile: seq<int>
    var isHalted: bool
    var startCycle: nat // the cycle in which the current instruction started

    ghost function Value(): Thread
      reads this
    {
      Thread(instAddress, regFile, isHalted, startCycle, currentInst.opcode)
    }

    constructor (id: nat)
      ensures threadId == id && Value() == NEW_THREAD
    {
      threadId := id;
      currentInst := Instruction(NOP, 0, 0, 0, false);
      instAddress, isHalted, startCycle := 0, false, 0;
      regFile := ZEROS;
    }

    /** execute: the effect of the current instruction. */
    method Execute(data: array<int>, dataStart: Word)
      requires |regFile| == REGS_COUNT && Executable(currentInst)
      requires IsMem(currentInst.opcode) ==> 0 <= WordIndex(currentInst, regFile, dataStart) < data.Length
      modifies this`regFile, this`isHalted, data
      ensures regFile == ExecuteRegs(currentInst, old(regFile), old(data[..]), dataStart)
      ensures data[..] == ExecuteMem(currentInst, old(regFile), old(data[..]), dataStart)
      ensures isHalted == (old(isHalted) || currentInst.opcode == HALT)
    {
      var dst, src1, src2 := currentInst.dst, currentInst.src1, currentInst.src2;
      if currentInst.opcode == NOP {
        return;
      } else if currentInst.opcode == ADD {
        regFile := regFile[dst := I32(regFile[src1] + regFile[src2])];
      } else if currentInst.opcode == SUB {
        regFile := regFile[dst := I32(regFile[src1] - regFile[src2])];
      } else if currentInst.opcode == ADDI {
        regFile := regFile[dst := I32(regFile[src1] + src2)];
      } else if currentInst.opcode == SUBI {
        regFile := regFile[dst := I32(regFile[src1] - src2)];
      } else if currentInst.opcode == LOAD {
        var offset := if currentInst.isImm then src2 else regFile[src2];
        var address := U32(regFile[src1] + offset);
        regFile := regFile[dst := data[DataIndex(address, dataStart)]];
      } else if currentInst.opcode == STORE {
        var offset := if currentInst.isImm then src2 else regFile[src2];
        var address := U32(regFile[dst] + offset);
        data[DataIndex(address, dataStart)] := regFile[src1];
      } else {
        isHalted := true;
      }
    }

    /** execute_inst: event tells blocked multithreading to try a switch. */
    method ExecuteInst(prog: Program, data: array<int>, dataStart: Word, cycle: nat) returns (event: bool)
      requires RunsToHalt(prog) && ThreadOk(prog, Value()) && !isHalted
      requires IsMem(prog[instAddress].opcode) ==> 0 <= WordIndex(prog[instAddress], regFile, dataStart) < data.Length
      modifies this, data
      ensures Value() == CoreModel.ExecuteInst(prog, old(Value()), old(data[..]), dataStart, cycle)
      ensures data[..] == ExecuteMem(prog[old(instAddress)], old(regFile), old(data[..]), dataStart)
      ensures var op := prog[old(instAddress)].opcode; event <==> op == LOAD || op == STORE || op == HALT
    {
      startCycle := cycle + 1;
      currentInst := prog[instAddress];
      Execute(data, dataStart);
      instAddress := instAddress + 1;
      event := currentInst.opcode == LOAD || currentInst.opcode == STORE || currentInst.opcode == HALT;
    }
  }

  class Handler {
    const config: Config
    const data: array<int>
    const threads: seq<ThreadContext>
    var currentCycle: nat
    var numInstructions: nat
    var currentThreadId: nat
    var currentThread: ThreadContext

    /** The objects hold the state s; idle and event are locals of the run loops. */
    ghost predicate Holds(s: Core)
      reads this, threads, data
    {
      && |threads| == |config.progs| == |s.threads|
      && (forall i, j :: 0 <= i < j < |threads| ==> threads[i] != threads[j])
      && currentCycle == s.cycle && numInstructions == s.issued && currentThreadId == s.current
      && s.current < |threads| && currentThread == threads[s.current]
      && (forall t :: 0 <= t < |threads| ==> threads[t].Value() == s.threads[t])
      && data[..] == s.mem
    }

    constructor (config: Config, data: array<int>)
      requires ConfigOk(config)
      ensures this.config == config && this.data == data && Holds(Init(config, data[..]))
      ensures fresh(threads)
    {
      var ths: seq<ThreadContext> := [];
      for i := 0 to |config.progs|
        invariant |ths| == i && fresh(ths)
        invariant forall j, k :: 0 <= j < k < i ==> ths[j] != ths[k]
        invariant forall j :: 0 <= j < i ==> ths[j].Value() == NEW_THREAD
      {
        var th := new ThreadContext(i);
        ths := ths + [th];
      }
      this.config, this.data, threads := config, data, ths;
      currentCycle, numInstructions, currentThreadId := 0, 0, 0;
      currentThread := ths[0];
    }

    method AllHaltedNow(ghost s: Core) returns (all: bool)
      requires Holds(s)
      ensures all <==> AllHalted(s.threads)
    {
      all := true;
      for t := 0 to |threads|
        invariant all <==> forall k :: 0 <= k < t ==> s.threads[k].halted
      {
        assert threads[t].Value() == s.threads[t];
        if !threads[t].isHalted {
          all := false;
        }
      }
    }

    /** switch_thread: true when no thread can run. */
    method SwitchThread(ghost s: Core) returns (idle: bool)
      requires StateOk(config, s) && Holds(s)
      modifies this`currentThread, this`currentThreadId
      ensures idle == CoreModel.SwitchThread(config, s).1
      ensures Holds(s.(current := CoreModel.SwitchThread(config, s).0))
    {
      assert currentThread.Value() == s.threads[s.current];
      if config.blocked && !currentThread.isHalted {
        var lat := Latency(config, currentThread.currentInst.opcode);
        if currentCycle - currentThread.startCycle >= lat {
          return false;
        }
      }
      ghost var first := FirstEligible(config, s.threads, s.cycle, s.current, 1);
      for i := 1 to |threads| + 1
        invariant Holds(s) && FirstEligible(config, s.threads, s.cycle, s.current, i) == first
      {
        var next := Following(currentThreadId, i, |threads|);
        var th := threads[next];
        assert th.Value() == s.threads[next];
        if th.isHalted {
          continue;
        }
        var lat := Latency(config, th.currentInst.opcode);
        if currentCycle - th.startCycle >= lat {
          currentThread := th;
          currentThreadId := next;
          return false;
        }
      }
      return true;
    }

    /** The first half of an iteration of either run loop. */
    method ExecuteCurrent(ghost s: Core) returns (event: bool)
      requires CoreOk(config, s) && !AllHalted(s.threads) && !s.idle && Holds(s) && I.InBounds(config, s)
      modifies this`numInstructions, currentThread, data
      ensures Holds(Issue(config, s)) && event == Issue(config, s).event
    {
      assert currentThread.Value() == s.threads[s.current];
      event := currentThread.ExecuteInst(config.progs[currentThreadId], data, config.dataStart, currentCycle);
      numInstructions := numInstructions + 1;
    }

    /** One iteration of run_program_finegrained. */
    method IterateFinegrained(isIdle: bool, ghost s: Core) returns (isIdle': bool)
      requires CoreOk(config, s) && !AllHalted(s.threads) && !config.blocked
      requires Holds(s) && isIdle == s.idle && I.InBounds(config, s)
      modifies this`currentCycle, this`numInstructions, this`currentThread, this`currentThreadId, threads, data
      ensures Holds(StepFinegrained(config, s)) && isIdle' == StepFinegrained(config, s).idle
    {
      ghost var s1 := Tick(config, s);
      if !isIdle {
        var _ := ExecuteCurrent(s);
      }
      currentCycle := currentCycle + 1;
      isIdle' := SwitchThread(s1);
    }

    /** One iteration of run_program_blocked. */
    method IterateBlocked(isIdle: bool, event: bool, ghost s: Core) returns (isIdle': bool, event': bool)
      requires CoreOk(config, s) && !AllHalted(s.threads) && config.blocked
      requires Holds(s) && isIdle == s.idle && event == s.event && I.InBounds(config, s)
      modifies this`currentCycle, this`numInstructions, this`currentThread, this`currentThreadId, threads, data
      ensures Holds(StepBlocked(config, s)) && isIdle' == StepBlocked(config, s).idle && event' == StepBlocked(config, s).event
    {
      ghost var s1 := Tick(config, s);
      isIdle', event' := isIdle, event;
      if !isIdle {
        event' := ExecuteCurrent(s);
      }
      currentCycle := currentCycle + 1;
      if event' || isIdle {
        var prevId := currentThreadId;
        isIdle' := SwitchThread(s1);
        if !isIdle' && prevId != currentThreadId {
          currentCycle := currentCycle + config.penalty;
        }
      }
    }

    /** The facts an iteration needs about the end of a history. */
    lemma Continues(mem: seq<int>, h: seq<Core>)
      requires IsRun(config, mem, h) && I.StaysInBounds(config, mem) && !AllHalted(h[|h| - 1].threads)
      ensures CoreOk(config, h[|h| - 1]) && I.InBounds(config, h[|h| - 1])
      ensures |h| <= Y.TotalWork(config, |config.progs|)
      ensures IsRun(config, mem, h + [Step(config, h[|h| - 1])])
    {
      assert I.SafeAt(config, h, |h| - 1);
      RunExtends(config, mem, h);
      Y.RunTerminates(config, mem, h, |h| - 1);
    }

    method AdvanceFinegrained(isIdle: bool, ghost mem: seq<int>, ghost h: seq<Core>)
      returns (isIdle': bool, ghost g: seq<Core>)
      requires IsRun(config, mem, h) && I.StaysInBounds(config, mem) && !AllHalted(h[|h| - 1].threads)
      requires !config.blocked && Holds(h[|h| - 1]) && isIdle == h[|h| - 1].idle
      modifies this`currentCycle, this`numInstructions, this`currentThread, this`currentThreadId, threads, data
      ensures IsRun(config, mem, g) && |g| == |h| + 1 && |h| <= Y.TotalWork(config, |config.progs|)
      ensures Holds(g[|g| - 1]) && isIdle' == g[|g| - 1].idle
    {
      Continues(mem, h);
      g := h + [Step(config, h[|h| - 1])];
      isIdle' := IterateFinegrained(isIdle, h[|h| - 1]);
    }

    method AdvanceBlocked(isIdle: bool, event: bool, ghost mem: seq<int>, ghost h: seq<Core>)
      returns (isIdle': bool, event': bool, ghost g: seq<Core>)
      requires IsRun(config, mem, h) && I.StaysInBounds(config, mem) && !AllHalted(h[|h| - 1].threads)
      requires config.blocked && Holds(h[|h| - 1]) && isIdle == h[|h| - 1].idle && event == h[|h| - 1].event
      modifies this`currentCycle, this`numInstructions, this`currentThread, this`currentThreadId, threads, data
      ensures IsRun(config, mem, g) && |g| == |h| + 1 && |h| <= Y.TotalWork(config, |config.progs|)
      ensures Holds(g[|g| - 1]) && isIdle' == g[|g| - 1].idle && event' == g[|g| - 1].event
    {
      Continues(mem, h);
      g := h + [Step(config, h[|h| - 1])];
      isIdle', event' := IterateBlocked(isIdle, event, h[|h| - 1]);
    }

    /** run_program_finegrained; h is the history of the run. */
    method RunFinegrained() returns (ghost h: seq<Core>)
      requires ConfigOk(config) && !config.blocked && Holds(Init(config, data[..]))
      requires I.StaysInBounds(config, data[..])
      modifies this`currentCycle, this`numInstructions, this`currentThread, this`currentThreadId, threads, data
      ensures IsRun(config, old(data[..]), h) && Holds(h[|h| - 1]) && AllHalted(h[|h| - 1].threads)
    {
      ghost var mem := data[..];
      h := [Init(config, mem)];
      var isIdle := false;
      var done := AllHaltedNow(h[0]);
      while !done
        invariant IsRun(config, mem, h) && Holds(h[|h| - 1])
        invariant isIdle == h[|h| - 1].idle && done == AllHalted(h[|h| - 1].threads)
        decreases Y.TotalWork(config, |config.progs|) + 1 - |h|
      {
        isIdle, h := AdvanceFinegrained(isIdle, mem, h);
        done := AllHaltedNow(h[|h| - 1]);
      }
    }

    /** run_program_blocked; h is the history of the run. */
    method RunBlocked() returns (ghost h: seq<Core>)
      requires ConfigOk(config) && config.blocked && Holds(Init(config, data[..]))
      requires I.StaysInBounds(config, data[..])
      modifies this`currentCycle, this`numInstructions, this`currentThread, this`currentThreadId, threads, data
      ensures IsRun(config, old(data[..]), h) && Holds(h[|h| - 1]) && AllHalted(h[|h| - 1].threads)
    {
      ghost var mem := data[..];
      h := [Init(config, mem)];
      var isIdle, event := false, false;
      var done := AllHaltedNow(h[0]);
      while !done
        invariant IsRun(config, mem, h) && Holds(h[|h| - 1])
        invariant isIdle == h[|h| - 1].idle && event == h[|h| - 1].event
        invariant done == AllHalted(h[|h| - 1].threads)
        decreases Y.TotalWork(config, |config.progs|) + 1 - |h|
      {
        isIdle, event, h := AdvanceBlocked(isIdle, event, mem, h);
        done := AllHaltedNow(h[|h| - 1]);
      }
    }
  }

  /** The register files after a run. */
  method Registers(core: Handler, ghost s: Core) returns (regs: seq<seq<int>>)
    requires core.Holds(s)
    ensures |regs| == |s.threads| && forall t :: 0 <= t < |regs| ==> regs[t] == s.threads[t].regs
  {
    regs := [];
    for t := 0 to |core.threads|
      invariant |regs| == t && forall k :: 0 <= k < t ==> regs[k] == s.threads[k].regs
    {
      assert core.threads[t].Value() == s.threads[t];
      regs := regs + [core.threads[t].regFile];
    }
  }

  /** Both simulations on copies of one memory image: independent threads end
      with the registers of their solo runs, and with one and the same memory. */
  method RunBoth(blocked: Config, finegrained: Config, image: seq<int>)
    returns (blockedRegs: seq<seq<int>>, fineRegs: seq<seq<int>>, blockedData: seq<int>, fineData: seq<int>)
    requires ConfigOk(blocked) && blocked.blocked && ConfigOk(finegrained) && !finegrained.blocked
    requires I.CodeOf(blocked) == I.CodeOf(finegrained)
    requires I.Independent(I.CodeOf(blocked), image) && I.SoloInBounds(I.CodeOf(blocked), image)
    ensures blockedData == fineData && blockedRegs == fineRegs && |blockedRegs| == |blocked.progs|
    ensures forall t :: 0 <= t < |blocked.progs| ==> blockedRegs[t] == I.Finished(I.CodeOf(blocked), image, t).regs
  {
    I.IndependentStaysInBounds(blocked, image);
    I.IndependentStaysInBounds(finegrained, image);
    ghost var h, g;
    blockedRegs, blockedData, h := Simulate(blocked, image);
    fineRegs, fineData, g := Simulate(finegrained, image);
    I.ScheduleIndependence(blocked, image, h, |h| - 1);
    I.SchedulersAgree(blocked, finegrained, image, h, g, |h| - 1, |g| - 1);
  }

  /** One simulation, from a new handler on its own copy of the memory image. */
  method Simulate(config: Config, image: seq<int>)
    returns (regs: seq<seq<int>>, mem: seq<int>, ghost h: seq<Core>)
    requires ConfigOk(config) && I.StaysInBounds(config, image)
    ensures IsRun(config, image, h) && AllHalted(h[|h| - 1].threads)
    ensures mem == h[|h| - 1].mem && |regs| == |h[|h| - 1].threads|
    ensures forall t :: 0 <= t < |regs| ==> regs[t] == h[|h| - 1].threads[t].regs
  {
    var data := new int[|image|](i requires 0 <= i < |image| => image[i]);
    assert data[..] == image;
    var core := new Handler(config, data);
    if config.blocked {
      h := core.RunBlocked();
    } else {
      h := core.RunFinegrained();
    }
    regs := Registers(core, h[|h| - 1]);
    mem := data[..];
  }
}
