/** Cycle counts of both schedulers: what every issue and every idle cycle
    means, termination, exact accounting, bounds, and round-robin fairness.
    Each result is about every history of a run (IsRun). */
module CoreCycles {
  import opened Bits
  import opened CoreModel

  // ---------- one iteration, thread by thread ----------

  /** At the head of the loop the core is idle only if no live thread is ready. */
  ghost predicate IdleMeansNone(c: Config, s: Core) {
    s.idle ==> forall t :: 0 <= t < |s.threads| ==> !Eligible(c, s.threads[t], s.cycle)
  }

  lemma StepIdle(c: Config, s: Core)
    requires CoreOk(c, s) && !AllHalted(s.threads)
    ensures IdleMeansNone(c, Step(c, s))
  {
    SwitchIs(c, Tick(c, s));
  }

  /** What one iteration does to one thread. */
  lemma StepThread(c: Config, s: Core, t: nat)
    requires CoreOk(c, s) && !AllHalted(s.threads) && t < |s.threads|
    ensures var th, th' := s.threads[t], Step(c, s).threads[t];
            if !s.idle && s.current == t then
              th' == ExecuteInst(c.progs[t], th, s.mem, c.dataStart, s.cycle) && Eligible(c, th, s.cycle)
            else th' == th
    ensures Step(c, s).cycle > s.cycle
  {
    StepThreads(c, s);
  }

  /** What one iteration does to the counters. */
  lemma StepAccounting(c: Config, s: Core)
    requires CoreOk(c, s) && !AllHalted(s.threads)
    ensures var s' := Step(c, s);
            && s'.issued == s.issued + (if s.idle then 0 else 1)
            && s'.cycle == s.cycle + 1 + (if c.blocked && s'.current != s.current then c.penalty else 0)
  {
    SwitchIs(c, Tick(c, s));
  }

  // ---------- safety ----------

  /** Work conservation: in every state of a run that is not over, an idle core
      has no live ready thread, and a busy one is about to issue such a thread. */
  lemma WorkConserving(c: Config, mem: seq<int>, h: seq<Core>, n: nat)
    requires IsRun(c, mem, h) && n < |h| && !AllHalted(h[n].threads)
    ensures IdleMeansNone(c, h[n])
    ensures h[n].idle <==> forall t :: 0 <= t < |h[n].threads| ==> !Eligible(c, h[n].threads[t], h[n].cycle)
    ensures !h[n].idle ==> h[n].current < |h[n].threads| && Eligible(c, h[n].threads[h[n].current], h[n].cycle)
  {
    RunIsOk(c, mem, h, n);
    if n > 0 {
      assert StepsAt(c, h, n - 1);
      StepIdle(c, h[n - 1]);
    }
  }

  /** Iteration n issues an instruction of thread t. */
  ghost predicate Issues(h: seq<Core>, n: nat, t: nat)
    requires n < |h|
  {
    !AllHalted(h[n].threads) && !h[n].idle && h[n].current == t
  }

  /** The first cycle at which the thread's current instruction has finished. */
  function Finish(c: Config, th: Thread): nat {
    th.start + Latency(c, th.op)
  }

  /** The opcode thread t is about to run. */
  ghost function NextOp(c: Config, s: Core, t: nat): Opcode
    requires CoreOk(c, s) && t < |s.threads| && !s.threads[t].halted
  {
    c.progs[t][s.threads[t].pc].opcode
  }

  lemma StepFinish(c: Config, s: Core, t: nat)
    requires CoreOk(c, s) && t < |s.threads|
    ensures var s' := Step(c, s);
            && Finish(c, s.threads[t]) <= Finish(c, s'.threads[t])
            && (!AllHalted(s.threads) && !s.idle && s.current == t ==>
                  Finish(c, s'.threads[t]) == s.cycle + 1 + Latency(c, NextOp(c, s, t)))
  {
    if !AllHalted(s.threads) {
      StepThread(c, s, t);
    }
  }

  lemma RunSize(c: Config, mem: seq<int>, h: seq<Core>, n: nat)
    requires IsRun(c, mem, h) && n < |h|
    ensures |h[n].threads| == |c.progs|
  {
    RunIsOk(c, mem, h, n);
  }

  lemma {:induction false} FinishGrows(c: Config, mem: seq<int>, h: seq<Core>, j: nat, k: nat, t: nat)
    requires IsRun(c, mem, h) && j <= k < |h| && t < |c.progs|
    ensures |h[j].threads| == |h[k].threads| == |c.progs|
    ensures Finish(c, h[j].threads[t]) <= Finish(c, h[k].threads[t])
    decreases k - j
  {
    RunSize(c, mem, h, j);
    RunSize(c, mem, h, k);
    if j < k {
      FinishGrows(c, mem, h, j, k - 1, t);
      assert StepsAt(c, h, k - 1);
      StepFinish(c, h[k - 1], t);
    }
  }

  /** Two issues of a thread are at least one cycle plus the latency of the first
      apart: the load or store latency after a LOAD or STORE. */
  lemma IssueSpacing(c: Config, mem: seq<int>, h: seq<Core>, j: nat, k: nat, t: nat)
    requires IsRun(c, mem, h) && j < k < |h| && Issues(h, j, t) && Issues(h, k, t)
    ensures CoreOk(c, h[j]) && t < |h[j].threads| && !h[j].threads[t].halted
    ensures h[k].cycle >= h[j].cycle + 1
    ensures NextOp(c, h[j], t) == LOAD ==> h[k].cycle >= h[j].cycle + 1 + c.loadLat
    ensures NextOp(c, h[j], t) == STORE ==> h[k].cycle >= h[j].cycle + 1 + c.storeLat
  {
    RunIsOk(c, mem, h, j);
    RunIsOk(c, mem, h, k);
    assert StepsAt(c, h, j);
    StepFinish(c, h[j], t);
    FinishGrows(c, mem, h, j + 1, k, t);
  }

  // ---------- work and potential ----------

  /** The cycles a program needs from instruction k to its HALT, alone. */
  ghost function Work(c: Config, prog: Program, k: nat): (r: nat)
    requires RunsToHalt(prog) && k <= HaltIndex(prog) + 1
    ensures k <= HaltIndex(prog) ==> r >= 1
    decreases HaltIndex(prog) + 1 - k
  {
    if k == HaltIndex(prog) + 1 then 0
    else 1 + Latency(c, prog[k].opcode) + Work(c, prog, k + 1)
  }

  /** How often op occurs in the program from instruction k to its HALT. */
  function Occurrences(prog: Program, op: Opcode, k: nat): nat
    requires k <= HaltIndex(prog)
    decreases HaltIndex(prog) - k
  {
    if k == HaltIndex(prog) then 0
    else (if prog[k].opcode == op then 1 else 0) + Occurrences(prog, op, k + 1)
  }

  /** The work of a program is one cycle for each instruction, HALT included,
      and the load and store latency for each LOAD and STORE. */
  lemma {:induction false} WorkIs(c: Config, prog: Program, k: nat)
    requires RunsToHalt(prog) && k <= HaltIndex(prog)
    ensures Work(c, prog, k) == HaltIndex(prog) + 1 - k
            + c.loadLat * Occurrences(prog, LOAD, k) + c.storeLat * Occurrences(prog, STORE, k)
    decreases HaltIndex(prog) - k
  {
    if k < HaltIndex(prog) {
      WorkIs(c, prog, k + 1);
      var op := prog[k].opcode;
      Distribute(c.loadLat, Occurrences(prog, LOAD, k + 1), if op == LOAD then 1 else 0);
      Distribute(c.storeLat, Occurrences(prog, STORE, k + 1), if op == STORE then 1 else 0);
    }
  }

  /** The cycles until the thread's current instruction has finished. */
  function Pending(c: Config, th: Thread, cycle: nat): nat {
    Max(0, Finish(c, th) - cycle)
  }

  ghost function Remaining(c: Config, t: nat, th: Thread, cycle: nat): nat
    requires ConfigOk(c) && t < |c.progs| && ThreadOk(c.progs[t], th)
  {
    Work(c, c.progs[t], th.pc) + Pending(c, th, cycle)
  }

  ghost predicate ThreadsOk(c: Config, threads: seq<Thread>) {
    |threads| == |c.progs| && forall t :: 0 <= t < |threads| ==> ThreadOk(c.progs[t], threads[t])
  }

  /** The remaining cycles of the first n threads, added up. */
  ghost function Potential(c: Config, threads: seq<Thread>, cycle: nat, n: nat): nat
    requires ConfigOk(c) && ThreadsOk(c, threads) && n <= |threads|
  {
    if n == 0 then 0
    else Potential(c, threads, cycle, n - 1) + Remaining(c, n - 1, threads[n - 1], cycle)
  }

  lemma {:induction false} PotentialDrops(c: Config, threads: seq<Thread>, cycle: nat,
                                          threads': seq<Thread>, cycle': nat, n: nat, u: nat)
    requires ConfigOk(c) && ThreadsOk(c, threads) && ThreadsOk(c, threads') && n <= |threads|
    requires forall t :: 0 <= t < n ==> Remaining(c, t, threads'[t], cycle') <= Remaining(c, t, threads[t], cycle)
    requires u < n ==> Remaining(c, u, threads'[u], cycle') < Remaining(c, u, threads[u], cycle)
    ensures Potential(c, threads', cycle', n) + (if u < n then 1 else 0) <= Potential(c, threads, cycle, n)
  {
    if n > 0 {
      PotentialDrops(c, threads, cycle, threads', cycle', n - 1, u);
    }
  }

  /** The thread that issues, or any live thread while idle, gets closer to its end. */
  lemma StepRemaining(c: Config, s: Core, t: nat)
    requires CoreOk(c, s) && !AllHalted(s.threads) && IdleMeansNone(c, s) && t < |s.threads|
    ensures var s' := Step(c, s);
            && Remaining(c, t, s'.threads[t], s'.cycle) <= Remaining(c, t, s.threads[t], s.cycle)
            && ((if s.idle then !s.threads[t].halted else t == s.current) ==>
                  Remaining(c, t, s'.threads[t], s'.cycle) < Remaining(c, t, s.threads[t], s.cycle))
  {
    StepThread(c, s, t);
  }

  ghost function TotalPotential(c: Config, s: Core): nat
    requires CoreOk(c, s)
  {
    Potential(c, s.threads, s.cycle, |s.threads|)
  }

  lemma PotentialLess(c: Config, s: Core, r: Core, u: nat)
    requires CoreOk(c, s) && CoreOk(c, r) && u < |s.threads|
    requires forall t :: 0 <= t < |s.threads| ==>
               Remaining(c, t, r.threads[t], r.cycle) <= Remaining(c, t, s.threads[t], s.cycle)
    requires Remaining(c, u, r.threads[u], r.cycle) < Remaining(c, u, s.threads[u], s.cycle)
    ensures TotalPotential(c, r) < TotalPotential(c, s)
  {
    PotentialDrops(c, s.threads, s.cycle, r.threads, r.cycle, |s.threads|, u);
  }

  lemma StepPotential(c: Config, s: Core)
    requires CoreOk(c, s) && !AllHalted(s.threads) && IdleMeansNone(c, s)
    ensures TotalPotential(c, Step(c, s)) < TotalPotential(c, s)
  {
    var live :| 0 <= live < |s.threads| && !s.threads[live].halted;
    var u := if s.idle then live else s.current;
    forall t | 0 <= t < |s.threads|
      ensures Remaining(c, t, Step(c, s).threads[t], Step(c, s).cycle) <= Remaining(c, t, s.threads[t], s.cycle)
    {
      StepRemaining(c, s, t);
    }
    StepRemaining(c, s, u);
    PotentialLess(c, s, Step(c, s), u);
  }

  // ---------- accounting ----------

  /** The iterations among the first n in which the core idled. */
  function IdleCycles(h: seq<Core>, n: nat): nat
    requires n < |h|
  {
    if n == 0 then 0
    else IdleCycles(h, n - 1) + if !AllHalted(h[n - 1].threads) && h[n - 1].idle then 1 else 0
  }

  /** The context switches to a different thread in the first n iterations. */
  function Switches(h: seq<Core>, n: nat): nat
    requires n < |h|
  {
    if n == 0 then 0
    else Switches(h, n - 1) + if h[n].current != h[n - 1].current then 1 else 0
  }

  lemma Distribute(a: int, b: int, d: int)
    ensures a * (b + d) == a * b + a * d
  {
  }

  /** What iteration n, counted from 1, adds to the counters. */
  lemma AccountingStep(c: Config, mem: seq<int>, h: seq<Core>, n: nat)
    requires IsRun(c, mem, h) && 0 < n < |h|
    ensures h[n].cycle - h[n - 1].cycle ==
            h[n].issued - h[n - 1].issued + IdleCycles(h, n) - IdleCycles(h, n - 1)
            + if c.blocked && h[n].current != h[n - 1].current then c.penalty else 0
  {
    assert StepsAt(c, h, n - 1);
    if !AllHalted(h[n - 1].threads) {
      StepAccounting(c, h[n - 1]);
    }
  }

  /** Every cycle is an issue, an idle cycle or part of a switch penalty, which
      only blocked multithreading pays. */
  lemma {:induction false} CycleAccounting(c: Config, mem: seq<int>, h: seq<Core>, n: nat)
    requires IsRun(c, mem, h) && n < |h|
    ensures h[n].cycle == h[n].issued + IdleCycles(h, n) + if c.blocked then c.penalty * Switches(h, n) else 0
  {
    if n > 0 {
      CycleAccounting(c, mem, h, n - 1);
      AccountingStep(c, mem, h, n);
      Distribute(c.penalty, Switches(h, n - 1), if h[n].current != h[n - 1].current then 1 else 0);
    }
  }

  // ---------- termination and the upper bound ----------

  /** The work of the first n programs, added up. */
  ghost function TotalWork(c: Config, n: nat): nat
    requires ConfigOk(c) && n <= |c.progs|
  {
    if n == 0 then 0 else TotalWork(c, n - 1) + Work(c, c.progs[n - 1], 0)
  }

  /** The instructions, HALTs included, of the first n programs. */
  ghost function Instructions(c: Config, n: nat): nat
    requires ConfigOk(c) && n <= |c.progs|
  {
    if n == 0 then 0 else Instructions(c, n - 1) + HaltIndex(c.progs[n - 1]) + 1
  }

  /** How often op occurs in the first n programs. */
  ghost function AllOccurrences(c: Config, op: Opcode, n: nat): nat
    requires ConfigOk(c) && n <= |c.progs|
  {
    if n == 0 then 0 else AllOccurrences(c, op, n - 1) + Occurrences(c.progs[n - 1], op, 0)
  }

  /** The work of all programs, in terms of the two latencies. */
  lemma {:induction false} TotalWorkIs(c: Config, n: nat)
    requires ConfigOk(c) && n <= |c.progs|
    ensures TotalWork(c, n) == Instructions(c, n)
            + c.loadLat * AllOccurrences(c, LOAD, n) + c.storeLat * AllOccurrences(c, STORE, n)
  {
    if n > 0 {
      TotalWorkIs(c, n - 1);
      WorkIs(c, c.progs[n - 1], 0);
      Distribute(c.loadLat, AllOccurrences(c, LOAD, n - 1), Occurrences(c.progs[n - 1], LOAD, 0));
      Distribute(c.storeLat, AllOccurrences(c, STORE, n - 1), Occurrences(c.progs[n - 1], STORE, 0));
    }
  }

  lemma {:induction false} InitPotential(c: Config, mem: seq<int>, n: nat)
    requires ConfigOk(c) && n <= |c.progs|
    ensures Potential(c, Init(c, mem).threads, 0, n) == TotalWork(c, n)
  {
    if n > 0 {
      InitPotential(c, mem, n - 1);
    }
  }

  /** Issues and idle cycles, together with the work left, stay within the work
      of all programs; while the run is not over, each iteration is one or the other. */
  lemma {:induction false} BusyBound(c: Config, mem: seq<int>, h: seq<Core>, n: nat)
    requires IsRun(c, mem, h) && n < |h|
    ensures CoreOk(c, h[n])
    ensures h[n].issued + IdleCycles(h, n) + TotalPotential(c, h[n]) <= TotalWork(c, |c.progs|)
    ensures !AllHalted(h[n].threads) ==> h[n].issued + IdleCycles(h, n) == n
  {
    RunIsOk(c, mem, h, n);
    if n == 0 {
      InitPotential(c, mem, |c.progs|);
    } else {
      BusyBound(c, mem, h, n - 1);
      assert StepsAt(c, h, n - 1);
      if !AllHalted(h[n - 1].threads) {
        WorkConserving(c, mem, h, n - 1);
        StepPotential(c, h[n - 1]);
        StepAccounting(c, h[n - 1]);
      }
    }
  }

  lemma {:induction false} LivePotential(c: Config, threads: seq<Thread>, cycle: nat, n: nat, t: nat)
    requires ConfigOk(c) && ThreadsOk(c, threads) && t < n <= |threads| && !threads[t].halted
    ensures Potential(c, threads, cycle, n) >= 1
  {
    if t < n - 1 {
      LivePotential(c, threads, cycle, n - 1, t);
    }
  }

  /** At no point do issues and idle cycles exceed the cycles all programs
      together need; and after that many iterations the run is over. */
  lemma RunTerminates(c: Config, mem: seq<int>, h: seq<Core>, n: nat)
    requires IsRun(c, mem, h) && n < |h|
    ensures h[n].issued + IdleCycles(h, n) <= TotalWork(c, |c.progs|)
    ensures n >= TotalWork(c, |c.progs|) ==> AllHalted(h[n].threads)
  {
    BusyBound(c, mem, h, n);
    if !AllHalted(h[n].threads) {
      var t :| 0 <= t < |h[n].threads| && !h[n].threads[t].halted;
      LivePotential(c, h[n].threads, h[n].cycle, |h[n].threads|, t);
    }
  }

  // ---------- the lower bound ----------

  /** The work done by a thread fits in the cycles up to its last instruction's end. */
  ghost predicate OnTime(c: Config, t: nat, th: Thread)
    requires ConfigOk(c) && t < |c.progs|
  {
    && ThreadOk(c.progs[t], th) && (th.halted ==> th.op == HALT)
    && Finish(c, th) + Work(c, c.progs[t], th.pc) >= Work(c, c.progs[t], 0)
  }

  lemma StepOnTime(c: Config, s: Core, t: nat)
    requires CoreOk(c, s) && t < |s.threads| && OnTime(c, t, s.threads[t])
    ensures OnTime(c, t, Step(c, s).threads[t])
  {
    if !AllHalted(s.threads) {
      StepThread(c, s, t);
    }
  }

  lemma {:induction false} RunOnTime(c: Config, mem: seq<int>, h: seq<Core>, n: nat, t: nat)
    requires IsRun(c, mem, h) && n < |h| && t < |c.progs|
    ensures |h[n].threads| == |c.progs| && OnTime(c, t, h[n].threads[t])
  {
    RunSize(c, mem, h, n);
    if n > 0 {
      RunOnTime(c, mem, h, n - 1, t);
      assert StepsAt(c, h, n - 1);
      StepOnTime(c, h[n - 1], t);
    }
  }

  /** No schedule finishes before any single program could, alone. */
  lemma CyclesAtLeastAlone(c: Config, mem: seq<int>, h: seq<Core>, n: nat, t: nat)
    requires IsRun(c, mem, h) && n < |h| && t < |c.progs| && AllHalted(h[n].threads)
    ensures var prog := c.progs[t];
            h[n].cycle >= HaltIndex(prog) + 1 + c.loadLat * Occurrences(prog, LOAD, 0)
                          + c.storeLat * Occurrences(prog, STORE, 0)
  {
    RunIsOk(c, mem, h, n);
    RunOnTime(c, mem, h, n, t);
    WorkIs(c, c.progs[t], 0);
  }

  // ---------- a single thread ----------

  lemma {:induction false} NeverSwitches(c: Config, mem: seq<int>, h: seq<Core>, n: nat)
    requires IsRun(c, mem, h) && n < |h| && |c.progs| == 1
    ensures h[n].current == 0 && Switches(h, n) == 0
  {
    RunIsOk(c, mem, h, n);
    if n > 0 {
      NeverSwitches(c, mem, h, n - 1);
    }
  }

  /** In either mode, and whatever the penalty, a single thread takes exactly one
      cycle for each instruction, HALT included, and the load or store latency
      for each LOAD and STORE. */
  lemma SingleThreadCycles(c: Config, mem: seq<int>, h: seq<Core>, n: nat)
    requires IsRun(c, mem, h) && n < |h| && |c.progs| == 1 && AllHalted(h[n].threads)
    ensures var prog := c.progs[0];
            h[n].cycle == HaltIndex(prog) + 1 + c.loadLat * Occurrences(prog, LOAD, 0)
                          + c.storeLat * Occurrences(prog, STORE, 0)
  {
    CyclesAtLeastAlone(c, mem, h, n, 0);
    CycleAccounting(c, mem, h, n);
    NeverSwitches(c, mem, h, n);
    RunTerminates(c, mem, h, n);
    WorkIs(c, c.progs[0], 0);
    assert TotalWork(c, 1) == TotalWork(c, 0) + Work(c, c.progs[0], 0);
  }

  // ---------- the number of instructions ----------

  /** The instructions executed by the first n threads. */
  function Executed(threads: seq<Thread>, n: nat): nat
    requires n <= |threads|
  {
    if n == 0 then 0 else Executed(threads, n - 1) + threads[n - 1].pc
  }

  lemma {:induction false} ExecutedOne(threads: seq<Thread>, threads': seq<Thread>, n: nat, u: nat)
    requires |threads| == |threads'| && n <= |threads| && u < |threads|
    requires threads'[u].pc == threads[u].pc + 1
    requires forall t :: 0 <= t < |threads| && t != u ==> threads'[t] == threads[t]
    ensures Executed(threads', n) == Executed(threads, n) + if u < n then 1 else 0
  {
    if n > 0 {
      ExecutedOne(threads, threads', n - 1, u);
    }
  }

  lemma {:induction false} NoneExecuted(threads: seq<Thread>, n: nat)
    requires n <= |threads| && forall t :: 0 <= t < |threads| ==> threads[t].pc == 0
    ensures Executed(threads, n) == 0
  {
    if n > 0 {
      NoneExecuted(threads, n - 1);
    }
  }

  lemma StepExecuted(c: Config, s: Core)
    requires CoreOk(c, s) && s.issued == Executed(s.threads, |s.threads|)
    ensures var s' := Step(c, s); s'.issued == Executed(s'.threads, |s'.threads|)
  {
    if !AllHalted(s.threads) {
      StepThreads(c, s);
      if !s.idle {
        ExecutedOne(s.threads, Step(c, s).threads, |s.threads|, s.current);
      }
    }
  }

  /** N_instructions counts the instructions the threads have executed. */
  lemma {:induction false} IssuedIsExecuted(c: Config, mem: seq<int>, h: seq<Core>, n: nat)
    requires IsRun(c, mem, h) && n < |h|
    ensures h[n].issued == Executed(h[n].threads, |h[n].threads|)
  {
    if n == 0 {
      NoneExecuted(h[0].threads, |h[0].threads|);
    } else {
      IssuedIsExecuted(c, mem, h, n - 1);
      assert StepsAt(c, h, n - 1);
      StepExecuted(c, h[n - 1]);
    }
  }

  lemma {:induction false} ExecutedEqual(threads: seq<Thread>, threads': seq<Thread>, n: nat)
    requires n <= |threads| && n <= |threads'| && forall t :: 0 <= t < n ==> threads[t].pc == threads'[t].pc
    ensures Executed(threads, n) == Executed(threads', n)
  {
    if n > 0 {
      ExecutedEqual(threads, threads', n - 1);
    }
  }

  /** Both modes issue the same number of instructions, whatever the memory,
      the latencies and the penalty. */
  lemma SameInstructionCount(c: Config, mem: seq<int>, h: seq<Core>, n: nat,
                             d: Config, mem': seq<int>, g: seq<Core>, m: nat)
    requires IsRun(c, mem, h) && n < |h| && AllHalted(h[n].threads)
    requires IsRun(d, mem', g) && m < |g| && AllHalted(g[m].threads)
    requires c.progs == d.progs
    ensures h[n].issued == g[m].issued
  {
    IssuedIsExecuted(c, mem, h, n);
    IssuedIsExecuted(d, mem', g, m);
    RunIsOk(c, mem, h, n);
    RunIsOk(d, mem', g, m);
    forall t | 0 <= t < |c.progs|
      ensures h[n].threads[t].pc == g[m].threads[t].pc
    {
      assert ThreadOk(c.progs[t], h[n].threads[t]) && ThreadOk(d.progs[t], g[m].threads[t]);
    }
    ExecutedEqual(h[n].threads, g[m].threads, |c.progs|);
  }

  // ---------- fairness ----------

  /** How many places after current thread t comes, cyclically; 0 if it is current. */
  function Distance(current: nat, t: nat, n: nat): nat
    requires current < n && t < n
  {
    if t >= current then t - current else t + n - current
  }

  lemma StepCloser(c: Config, s: Core, t: nat)
    requires CoreOk(c, s) && !c.blocked && t < |s.threads| && !s.idle && s.current != t
    requires Eligible(c, s.threads[t], s.cycle)
    ensures var s' := Step(c, s);
            && s'.threads[t] == s.threads[t] && Eligible(c, s'.threads[t], s'.cycle) && !s'.idle
            && Distance(s'.current, t, |s.threads|) < Distance(s.current, t, |s.threads|)
  {
    var n, s1 := |s.threads|, Tick(c, s);
    StepThread(c, s, t);
    var d := Distance(s.current, t, n);
    assert Following(s.current, d, n) == t;
    SwitchIs(c, s1);
    var i := FirstEligible(c, s1.threads, s1.cycle, s.current, 1);
    assert i <= d;
  }

  /** Between iterations n and m every iteration issues a thread other than t. */
  ghost predicate OthersIssue(h: seq<Core>, n: nat, m: nat, t: nat)
    requires m <= |h|
  {
    forall j :: n <= j < m ==> Issues(h, j, h[j].current) && h[j].current != t
  }

  /** Fine-grained round robin is fair: once a live thread is ready, it issues
      after at most N - 1 iterations, each of which issues another thread. */
  lemma {:induction false} RoundRobinFair(c: Config, mem: seq<int>, h: seq<Core>, n: nat, t: nat) returns (k: nat)
    requires IsRun(c, mem, h) && !c.blocked && t < |c.progs| && n + |c.progs| <= |h|
    requires |h[n].threads| == |c.progs| && Eligible(c, h[n].threads[t], h[n].cycle)
    ensures h[n].current < |c.progs| && k <= Distance(h[n].current, t, |c.progs|) < |c.progs|
    ensures Issues(h, n + k, t) && OthersIssue(h, n, n + k, t)
  {
    k := FairFrom(c, mem, h, n, t, n + |c.progs|);
  }

  lemma {:induction false} FairFrom(c: Config, mem: seq<int>, h: seq<Core>, n: nat, t: nat, end: nat) returns (k: nat)
    requires IsRun(c, mem, h) && !c.blocked && t < |c.progs| && n < end <= |h|
    requires |h[n].threads| == |c.progs| && Eligible(c, h[n].threads[t], h[n].cycle)
    requires h[n].current < |c.progs| ==> n + Distance(h[n].current, t, |c.progs|) < end
    ensures h[n].current < |c.progs| && k <= Distance(h[n].current, t, |c.progs|)
    ensures n + k < end && Issues(h, n + k, t) && OthersIssue(h, n, n + k, t)
    decreases end - n
  {
    RunIsOk(c, mem, h, n);
    WorkConserving(c, mem, h, n);
    if h[n].current == t {
      k := 0;
    } else {
      assert StepsAt(c, h, n);
      StepCloser(c, h[n], t);
      RunSize(c, mem, h, n + 1);
      k := FairFrom(c, mem, h, n + 1, t, end);
      k := k + 1;
    }
  }

  // ---------- which thread runs next ----------

  /** t is the first thread after current, cyclically, that can run at the cycle. */
  ghost predicate Nearest(c: Config, threads: seq<Thread>, cycle: nat, current: nat, t: nat)
    requires current < |threads| && t < |threads|
  {
    && Eligible(c, threads[t], cycle)
    && (forall u :: 0 <= u < |threads| && Eligible(c, threads[u], cycle) ==>
          Places(current, t, |threads|) <= Places(current, u, |threads|))
  }

  /** How many places after current thread t comes; current itself comes last. */
  function Places(current: nat, t: nat, n: nat): nat
    requires current < n && t < n
  {
    if t == current then n else Distance(current, t, n)
  }

  lemma FirstIsNearest(c: Config, threads: seq<Thread>, cycle: nat, current: nat)
    requires current < |threads|
    ensures var i := FirstEligible(c, threads, cycle, current, 1);
            i <= |threads| ==> Nearest(c, threads, cycle, current, Following(current, i, |threads|))
  {
    var n, i := |threads|, FirstEligible(c, threads, cycle, current, 1);
    forall u | i <= n && 0 <= u < n && Eligible(c, threads[u], cycle)
      ensures Places(current, Following(current, i, n), n) <= Places(current, u, n)
    {
      assert Following(current, Places(current, u, n), n) == u;
    }
  }

  lemma StepSwitches(c: Config, s: Core)
    requires CoreOk(c, s) && !AllHalted(s.threads)
    ensures var r, at := Step(c, s), s.cycle + 1;
            && r.current < |r.threads| == |s.threads|
            && (!c.blocked && !r.idle ==> Nearest(c, r.threads, at, s.current, r.current))
            && (c.blocked && r.current != s.current ==>
                  !Eligible(c, r.threads[s.current], at) && Nearest(c, r.threads, at, s.current, r.current))
            && (c.blocked && !s.idle && !IsMem(NextOp(c, s, s.current)) && NextOp(c, s, s.current) != HALT ==>
                  r.current == s.current && !r.idle)
  {
    var s1 := Tick(c, s);
    FirstIsNearest(c, s1.threads, s1.cycle, s.current);
  }

  /** Fine-grained multithreading moves on every cycle, to the nearest thread
      that can run. Blocked multithreading stays through every instruction that
      is not a memory access or a HALT, leaves a thread only if it cannot go on,
      and then also goes to the nearest. */
  lemma SwitchRule(c: Config, mem: seq<int>, h: seq<Core>, n: nat)
    requires IsRun(c, mem, h) && n + 1 < |h| && !AllHalted(h[n].threads)
    ensures CoreOk(c, h[n])
    ensures var s, r, at := h[n], h[n + 1], h[n].cycle + 1;
            && r.current < |r.threads| == |s.threads|
            && (!c.blocked && !r.idle ==> Nearest(c, r.threads, at, s.current, r.current))
            && (c.blocked && r.current != s.current ==>
                  !Eligible(c, r.threads[s.current], at) && Nearest(c, r.threads, at, s.current, r.current))
            && (c.blocked && !s.idle && !IsMem(NextOp(c, s, s.current)) && NextOp(c, s, s.current) != HALT ==>
                  r.current == s.current && !r.idle)
  {
    RunIsOk(c, mem, h, n);
    assert StepsAt(c, h, n);
    StepSwitches(c, h[n]);
  }

  // ---------- the order of issues ----------

  ghost predicate NoneHalted(threads: seq<Thread>) {
    forall t :: 0 <= t < |threads| ==> !threads[t].halted
  }

  lemma NoneHaltedBefore(c: Config, s: Core)
    requires CoreOk(c, s) && NoneHalted(Step(c, s).threads)
    ensures NoneHalted(s.threads)
  {
    if !AllHalted(s.threads) {
      forall t | 0 <= t < |s.threads|
        ensures !s.threads[t].halted
      {
        StepThread(c, s, t);
      }
    }
  }

  lemma NextInTurn(c: Config, s: Core)
    requires CoreOk(c, s) && !c.blocked && c.loadLat == 0 && c.storeLat == 0 && !s.idle
    requires NoneHalted(s.threads) && NoneHalted(Step(c, s).threads)
    ensures var s' := Step(c, s);
            !s'.idle && s'.cycle == s.cycle + 1
            && s'.current == if s.current + 1 < |s.threads| then s.current + 1 else 0
  {
    assert !s.threads[s.current].halted;
    var s1 := Tick(c, s);
    var next := Following(s.current, 1, |s.threads|);
    assert Step(c, s).threads == s1.threads;
    assert !s1.threads[next].halted && s1.threads[next].start <= s1.cycle;
  }

  lemma InTurn(n: nat, k: nat)
    requires k > 0
    ensures (n + 1) % k == if n % k + 1 < k then n % k + 1 else 0
  {
    if n % k == k - 1 {
      DivIs(n + 1, k, n / k + 1, 0);
    } else {
      DivIs(n + 1, k, n / k, n % k + 1);
    }
  }

  /** State s is where a run in turn is after n iterations. */
  ghost predicate InTurnAt(c: Config, s: Core, n: nat)
    requires ConfigOk(c)
  {
    !s.idle && s.current == n % |c.progs| && s.cycle == n
  }

  lemma StepInTurn(c: Config, s: Core, n: nat)
    requires CoreOk(c, s) && !c.blocked && c.loadLat == 0 && c.storeLat == 0 && InTurnAt(c, s, n)
    requires NoneHalted(Step(c, s).threads)
    ensures InTurnAt(c, Step(c, s), n + 1)
  {
    NoneHaltedBefore(c, s);
    NextInTurn(c, s);
    InTurn(n, |c.progs|);
  }

  /** With zero latencies fine-grained multithreading issues from thread 0, 1,
      2, ... in turn, one instruction a cycle, as long as no thread has halted. */
  lemma {:induction false} RoundRobinOrder(c: Config, mem: seq<int>, h: seq<Core>, n: nat)
    requires IsRun(c, mem, h) && n < |h| && !c.blocked && c.loadLat == 0 && c.storeLat == 0
    requires NoneHalted(h[n].threads)
    ensures InTurnAt(c, h[n], n)
  {
    if n > 0 {
      assert StepsAt(c, h, n - 1);
      NoneHaltedBefore(c, h[n - 1]);
      RoundRobinOrder(c, mem, h, n - 1);
      StepInTurn(c, h[n - 1], n - 1);
    }
  }
}
