/** Schedule independence: threads that do not share stored words end as if
    each had run alone, whichever scheduler interleaves them. */
module CoreIndependence {
  import opened Bits
  import opened CoreModel

  /** A set of programs and the address of the data array. */
  datatype Code = Code(progs: seq<Program>, dataStart: Word)

  function CodeOf(c: Config): Code {
    Code(c.progs, c.dataStart)
  }

  ghost predicate CodeOk(code: Code) {
    forall t :: 0 <= t < |code.progs| ==> RunsToHalt(code.progs[t])
  }

  ghost function Alone(code: Code, mem: seq<int>, t: nat, k: nat): (r: Solo)
    requires CodeOk(code) && t < |code.progs|
    ensures SoloOk(code.progs[t], r)
  {
    SoloRun(code.progs[t], code.dataStart, mem, k)
  }

  /** The (k+1)st instruction of thread t, run alone, is op on data word w. */
  ghost predicate Accesses(code: Code, mem: seq<int>, t: nat, k: nat, op: Opcode, w: int)
    requires CodeOk(code) && t < |code.progs| && IsMem(op)
  {
    var s := Alone(code, mem, t, k);
    && !s.halted && code.progs[t][s.pc].opcode == op
    && WordIndex(code.progs[t][s.pc], s.regs, code.dataStart) == w
  }

  ghost predicate Stores(code: Code, mem: seq<int>, t: nat, w: int)
    requires CodeOk(code) && t < |code.progs|
  {
    exists k: nat :: Accesses(code, mem, t, k, STORE, w)
  }

  ghost predicate Touches(code: Code, mem: seq<int>, t: nat, w: int)
    requires CodeOk(code) && t < |code.progs|
  {
    Stores(code, mem, t, w) || exists k: nat :: Accesses(code, mem, t, k, LOAD, w)
  }

  /** No word stored by one thread's solo run is loaded or stored by another's. */
  ghost predicate Independent(code: Code, mem: seq<int>)
    requires CodeOk(code)
  {
    forall t, u, w :: 0 <= t < |code.progs| && 0 <= u < |code.progs| && t != u && Stores(code, mem, t, w) ==>
      !Touches(code, mem, u, w)
  }

  /** Thread t is where its solo run is after as many instructions, and sees
      the memory that run sees. */
  ghost predicate Agrees(code: Code, mem: seq<int>, t: nat, th: Thread, shared: seq<int>)
    requires CodeOk(code) && t < |code.progs|
  {
    var r := Alone(code, mem, t, th.pc);
    && r.pc == th.pc && r.regs == th.regs && r.halted == th.halted && |r.mem| == |shared|
    && (forall w :: 0 <= w < |shared| && Touches(code, mem, t, w) ==> shared[w] == r.mem[w])
  }

  ghost predicate Unstored(code: Code, mem: seq<int>, w: int)
    requires CodeOk(code)
  {
    forall t :: 0 <= t < |code.progs| ==> !Stores(code, mem, t, w)
  }

  ghost predicate AllAgree(c: Config, mem: seq<int>, s: Core)
    requires ConfigOk(c)
  {
    var code := CodeOf(c);
    && |s.threads| == |c.progs| && |s.mem| == |mem|
    && (forall t :: 0 <= t < |s.threads| ==> Agrees(code, mem, t, s.threads[t], s.mem))
    && (forall w :: 0 <= w < |mem| && Unstored(code, mem, w) ==> s.mem[w] == mem[w])
  }

  /** An instruction does the same in two memories that agree on the word it accesses. */
  lemma SameEffect(inst: Instruction, regs: seq<int>, mem: seq<int>, mem': seq<int>, dataStart: Word)
    requires |regs| == REGS_COUNT && Executable(inst) && |mem| == |mem'|
    requires IsMem(inst.opcode) ==>
               var w := WordIndex(inst, regs, dataStart); 0 <= w < |mem| ==> mem[w] == mem'[w]
    ensures ExecuteRegs(inst, regs, mem, dataStart) == ExecuteRegs(inst, regs, mem', dataStart)
    ensures forall w :: 0 <= w < |mem| && mem[w] == mem'[w] ==>
              ExecuteMem(inst, regs, mem, dataStart)[w] == ExecuteMem(inst, regs, mem', dataStart)[w]
  {
  }

  /** The thread that issues stays with its solo run. */
  lemma IssuerAgrees(c: Config, mem: seq<int>, s: Core)
    requires StateOk(c, s) && AllAgree(c, mem, s) && !s.threads[s.current].halted
    ensures var s' := Issue(c, s); Agrees(CodeOf(c), mem, s.current, s'.threads[s.current], s'.mem)
  {
    var code, t := CodeOf(c), s.current;
    var th, prog := s.threads[t], c.progs[t];
    var inst := prog[th.pc];
    var r := Alone(code, mem, t, th.pc);
    assert Agrees(code, mem, t, th, s.mem);
    if IsMem(inst.opcode) {
      var w := WordIndex(inst, th.regs, c.dataStart);
      assert Accesses(code, mem, t, th.pc, inst.opcode, w);
      assert Touches(code, mem, t, w);
    }
    SameEffect(inst, th.regs, s.mem, r.mem, c.dataStart);
    assert Alone(code, mem, t, th.pc + 1) == SoloStep(prog, c.dataStart, r);
  }

  /** A store of another thread goes unnoticed. */
  lemma OthersAgree(c: Config, mem: seq<int>, s: Core, u: nat)
    requires StateOk(c, s) && AllAgree(c, mem, s) && !s.threads[s.current].halted
    requires Independent(CodeOf(c), mem) && u < |s.threads| && u != s.current
    ensures var s' := Issue(c, s); Agrees(CodeOf(c), mem, u, s'.threads[u], s'.mem)
  {
    var code, t := CodeOf(c), s.current;
    var th := s.threads[t];
    var inst := c.progs[t][th.pc];
    assert Agrees(code, mem, u, s.threads[u], s.mem);
    if inst.opcode == STORE {
      var w := WordIndex(inst, th.regs, c.dataStart);
      assert Accesses(code, mem, t, th.pc, STORE, w);
      assert Stores(code, mem, t, w);
    }
  }

  lemma IssueAgrees(c: Config, mem: seq<int>, s: Core)
    requires StateOk(c, s) && AllAgree(c, mem, s) && !s.threads[s.current].halted
    requires Independent(CodeOf(c), mem)
    ensures AllAgree(c, mem, Issue(c, s))
  {
    var code, t, s' := CodeOf(c), s.current, Issue(c, s);
    IssuerAgrees(c, mem, s);
    forall u | 0 <= u < |s.threads| && u != t
      ensures Agrees(code, mem, u, s'.threads[u], s'.mem)
    {
      OthersAgree(c, mem, s, u);
    }
    forall w | 0 <= w < |mem| && Unstored(code, mem, w)
      ensures s'.mem[w] == mem[w]
    {
      var th := s.threads[t];
      var inst := c.progs[t][th.pc];
      if inst.opcode == STORE {
        var stored := WordIndex(inst, th.regs, c.dataStart);
        assert Accesses(code, mem, t, th.pc, STORE, stored);
        assert Stores(code, mem, t, stored);
      }
    }
  }

  lemma InitAgrees(c: Config, mem: seq<int>)
    requires ConfigOk(c)
    ensures AllAgree(c, mem, Init(c, mem))
  {
    forall t | 0 <= t < |c.progs|
      ensures Agrees(CodeOf(c), mem, t, NEW_THREAD, mem)
    {
      assert Alone(CodeOf(c), mem, t, 0) == Solo(0, ZEROS, false, mem);
    }
  }

  lemma StepAgrees(c: Config, mem: seq<int>, s: Core)
    requires CoreOk(c, s) && AllAgree(c, mem, s) && Independent(CodeOf(c), mem)
    ensures AllAgree(c, mem, Step(c, s))
  {
    if !AllHalted(s.threads) {
      StepThreads(c, s);
      if !s.idle {
        IssueAgrees(c, mem, s);
      }
    }
  }

  lemma {:induction false} RunAgrees(c: Config, mem: seq<int>, h: seq<Core>, n: nat)
    requires IsRun(c, mem, h) && n < |h| && Independent(CodeOf(c), mem)
    ensures AllAgree(c, mem, h[n])
  {
    if n == 0 {
      InitAgrees(c, mem);
    } else {
      RunAgrees(c, mem, h, n - 1);
      assert StepsAt(c, h, n - 1);
      StepAgrees(c, mem, h[n - 1]);
    }
  }

  /** The end of a solo run: every instruction up to and including the HALT. */
  ghost function Finished(code: Code, mem: seq<int>, t: nat): (r: Solo)
    requires CodeOk(code) && t < |code.progs|
  {
    Alone(code, mem, t, HaltIndex(code.progs[t]) + 1)
  }

  /** Whichever scheduler runs, when all threads have halted every register file
      is that of the thread run alone, every word stored by a thread is as that
      thread's solo run leaves it, and every other word is untouched. */
  lemma ScheduleIndependence(c: Config, mem: seq<int>, h: seq<Core>, n: nat)
    requires IsRun(c, mem, h) && n < |h| && AllHalted(h[n].threads) && Independent(CodeOf(c), mem)
    ensures var s, code := h[n], CodeOf(c);
            && |s.threads| == |c.progs| && |s.mem| == |mem|
            && (forall t :: 0 <= t < |s.threads| ==> s.threads[t].regs == Finished(code, mem, t).regs)
            && (forall t, w :: 0 <= t < |s.threads| && 0 <= w < |mem| && Stores(code, mem, t, w) ==>
                  |Finished(code, mem, t).mem| == |mem| && s.mem[w] == Finished(code, mem, t).mem[w])
            && (forall w :: 0 <= w < |mem| && Unstored(code, mem, w) ==> s.mem[w] == mem[w])
  {
    RunAgrees(c, mem, h, n);
    RunIsOk(c, mem, h, n);
    var s, code := h[n], CodeOf(c);
    forall t | 0 <= t < |s.threads|
      ensures s.threads[t].regs == Finished(code, mem, t).regs
      ensures forall w :: 0 <= w < |mem| && Stores(code, mem, t, w) ==>
                |Finished(code, mem, t).mem| == |mem| && s.mem[w] == Finished(code, mem, t).mem[w]
    {
      assert Agrees(code, mem, t, s.threads[t], s.mem);
      assert ThreadOk(c.progs[t], s.threads[t]);
    }
  }

  /** Blocked and fine-grained multithreading, with whatever latencies and
      penalty, end with the same registers and the same memory. */
  lemma SchedulersAgree(c: Config, d: Config, mem: seq<int>, h: seq<Core>, g: seq<Core>, n: nat, m: nat)
    requires IsRun(c, mem, h) && n < |h| && AllHalted(h[n].threads)
    requires IsRun(d, mem, g) && m < |g| && AllHalted(g[m].threads)
    requires CodeOf(c) == CodeOf(d) && Independent(CodeOf(c), mem)
    ensures h[n].mem == g[m].mem && |h[n].threads| == |g[m].threads|
    ensures forall t :: 0 <= t < |h[n].threads| ==> h[n].threads[t].regs == g[m].threads[t].regs
  {
    ScheduleIndependence(c, mem, h, n);
    ScheduleIndependence(d, mem, g, m);
    var s, r, code := h[n], g[m], CodeOf(c);
    forall w | 0 <= w < |mem|
      ensures s.mem[w] == r.mem[w]
    {
      if !Unstored(code, mem, w) {
        var t :| 0 <= t < |code.progs| && Stores(code, mem, t, w);
      }
    }
  }

  /** A solo run ends with its HALT and stays there. */
  lemma {:induction false} SoloEnds(code: Code, mem: seq<int>, t: nat, k: nat)
    requires CodeOk(code) && t < |code.progs|
    ensures var r, last := Alone(code, mem, t, k), HaltIndex(code.progs[t]);
            && r.pc == (if k <= last then k else last + 1)
            && (r.halted <==> k > last)
            && (k > last ==> r == Finished(code, mem, t))
  {
    if k > 0 {
      SoloEnds(code, mem, t, k - 1);
    }
  }

  // ---------- bounds ----------

  /** Every data access of a solo run is inside the data array. */
  ghost predicate SoloInBounds(code: Code, mem: seq<int>)
    requires CodeOk(code)
  {
    forall t, w :: 0 <= t < |code.progs| && Touches(code, mem, t, w) ==> 0 <= w < |mem|
  }

  /** The data access about to be made, if any, is inside the data array. */
  ghost predicate InBounds(c: Config, s: Core)
    requires CoreOk(c, s)
  {
    !AllHalted(s.threads) && !s.idle ==>
      var th := s.threads[s.current];
      var inst := c.progs[s.current][th.pc];
      IsMem(inst.opcode) ==> 0 <= WordIndex(inst, th.regs, c.dataStart) < |s.mem|
  }

  /** If the solo runs stay inside the data array, so does every interleaving. */
  lemma RunInBounds(c: Config, mem: seq<int>, h: seq<Core>, n: nat)
    requires IsRun(c, mem, h) && n < |h| && Independent(CodeOf(c), mem) && SoloInBounds(CodeOf(c), mem)
    ensures CoreOk(c, h[n]) && InBounds(c, h[n])
  {
    RunIsOk(c, mem, h, n);
    RunAgrees(c, mem, h, n);
    var s, code := h[n], CodeOf(c);
    if !AllHalted(s.threads) && !s.idle {
      var th := s.threads[s.current];
      var inst := c.progs[s.current][th.pc];
      assert Agrees(code, mem, s.current, th, s.mem);
      if IsMem(inst.opcode) {
        var w := WordIndex(inst, th.regs, c.dataStart);
        assert Accesses(code, mem, s.current, th.pc, inst.opcode, w);
        assert Touches(code, mem, s.current, w);
      }
    }
  }

  /** State n of a history is well-formed and makes no access outside the data array. */
  ghost predicate SafeAt(c: Config, h: seq<Core>, n: nat)
    requires n < |h|
  {
    CoreOk(c, h[n]) && InBounds(c, h[n])
  }

  /** No run from mem accesses a word outside the data array. */
  ghost predicate StaysInBounds(c: Config, mem: seq<int>) {
    forall h, n {:trigger SafeAt(c, h, n), IsRun(c, mem, h)} :: IsRun(c, mem, h) && 0 <= n < |h| ==> SafeAt(c, h, n)
  }

  lemma IndependentStaysInBounds(c: Config, mem: seq<int>)
    requires ConfigOk(c) && Independent(CodeOf(c), mem) && SoloInBounds(CodeOf(c), mem)
    ensures StaysInBounds(c, mem)
  {
    forall h, n | IsRun(c, mem, h) && 0 <= n < |h|
      ensures SafeAt(c, h, n)
    {
      RunInBounds(c, mem, h, n);
    }
  }
}
