/** What the graph of a trace is, stated on the trace alone: last writers,
    longest dependency chains, and the frontier; and when one add_inst does not
    return. */
module DataflowTheorems {
  import opened Bits
  import opened DisconnectLoop
  import opened DataflowModel
  import opened DataflowQueries
  import opened DataflowReach

  // ---------- the linear reference ----------

  /** The latest of the first k instructions that writes reg, by a backward scan. */
  function LastWriter(trace: seq<Inst>, k: nat, reg: Word): (r: int)
    requires k <= |trace|
    ensures ENTRY <= r < k
    ensures r != ENTRY ==> U32(trace[r].dst) == reg
    ensures forall j :: r < j < k ==> U32(trace[j].dst) != reg
  {
    if k == 0 then ENTRY
    else if U32(trace[k - 1].dst) == reg then k - 1
    else LastWriter(trace, k - 1, reg)
  }

  lemma {:induction false} LastWriterOfPrefix(trace: seq<Inst>, n: nat, k: nat, reg: Word)
    requires k <= n <= |trace|
    ensures LastWriter(trace[..n], k, reg) == LastWriter(trace, k, reg)
  {
    if k > 0 {
      LastWriterOfPrefix(trace, n, k - 1, reg);
    }
  }

  function Src1Dep(trace: seq<Inst>, i: nat): int
    requires i < |trace|
  {
    LastWriter(trace, i, trace[i].src1)
  }

  function Src2Dep(trace: seq<Inst>, i: nat): int
    requires i < |trace|
  {
    LastWriter(trace, i, trace[i].src2)
  }

  // ---------- the invariant of analyzeProg ----------

  function Latency(latency: seq<nat>, trace: seq<Inst>, i: nat): nat
    requires i < |trace| && trace[i].opcode < |latency|
  {
    latency[trace[i].opcode]
  }

  /** Node i of a graph is the one its instruction calls for. */
  ghost predicate NodeMatches(latency: seq<nat>, trace: seq<Inst>, g: seq<Node>, i: nat)
    requires WellFormed(g) && i < |g| && i < |trace| && Decodes(latency, trace)
  {
    var v := g[i];
    && v.cycles == Latency(latency, trace, i)
    && v.writeReg == U32(trace[i].dst) && v.read1 == trace[i].src1 && v.read2 == trace[i].src2
    && (v.dep1, v.dep2) == Encode(Src1Dep(trace, i), Src2Dep(trace, i))
    && v.depth == (if v.dep1 == ENTRY then 0
                   else Max(g[v.dep1].depth + g[v.dep1].cycles, g[v.dep2].depth + g[v.dep2].cycles))
  }

  ghost predicate MaxDepthExact(t: Tree) {
    && (forall i :: 0 <= i < |t.g| ==> t.g[i].depth + t.g[i].cycles <= t.maxDepth)
    && (if |t.g| == 0 then t.maxDepth == 0
        else exists i :: 0 <= i < |t.g| && t.g[i].depth + t.g[i].cycles == t.maxDepth)
  }

  ghost predicate Faithful(latency: seq<nat>, trace: seq<Inst>, t: Tree)
    requires Decodes(latency, trace)
  {
    && TreeOk(t) && |t.g| == |trace|
    && (forall i :: 0 <= i < |trace| ==> NodeMatches(latency, trace, t.g, i))
    && FrontierExact(t) && MaxDepthExact(t)
  }

  lemma NewNodeMatches(latency: seq<nat>, trace: seq<Inst>, t: Tree, v: Node)
    requires |trace| > 0 && Decodes(latency, trace)
    requires Faithful(latency, trace[..|trace| - 1], t)
    requires v == Resolve(t, trace[|trace| - 1], Latency(latency, trace, |trace| - 1))
    ensures WellFormed(t.g + [v]) && NodeMatches(latency, trace, t.g + [v], |trace| - 1)
  {
    var n := |trace| - 1;
    var prefix := trace[..n];
    forall reg: Word
      ensures Search(t.g, t.slots, 0, reg, ENTRY) == LastWriter(trace, n, reg)
    {
      var w := LastWriter(trace, n, reg);
      forall j | 0 <= j < n
        ensures t.g[j].writeReg == U32(trace[j].dst)
      {
        assert NodeMatches(latency, prefix, t.g, j);
      }
      SearchFindsLatest(t, reg, w);
    }
  }

  lemma OldNodesMatch(latency: seq<nat>, trace: seq<Inst>, t: Tree, v: Node, i: nat)
    requires |trace| > 0 && Decodes(latency, trace) && i < |trace| - 1
    requires Faithful(latency, trace[..|trace| - 1], t) && WellFormed(t.g + [v])
    ensures NodeMatches(latency, trace, t.g + [v], i)
  {
    assert NodeMatches(latency, trace[..|trace| - 1], t.g, i);
    LastWriterOfPrefix(trace, |trace| - 1, i, trace[i].src1);
    LastWriterOfPrefix(trace, |trace| - 1, i, trace[i].src2);
  }

  /** What add_inst does to the frontier. */
  lemma AddInstSlots(t: Tree, inst: Inst, cycles: nat)
    requires TreeOk(t) && AddInst(t, inst, cycles).Some?
    ensures var t', v := AddInst(t, inst, cycles).value, Resolve(t, inst, cycles);
            && t'.g == t.g + [v]
            && (forall x :: x != NULL ==>
                  (x in t'.slots <==> x == |t.g| || (x in t.slots && x != v.dep1 && x != v.dep2)))
  {
    AttachSlots(t, Resolve(t, inst, cycles));
  }

  lemma FrontierStep(t: Tree, inst: Inst, cycles: nat)
    requires TreeOk(t) && FrontierExact(t) && AddInst(t, inst, cycles).Some?
    ensures FrontierExact(AddInst(t, inst, cycles).value)
  {
    var t', v := AddInst(t, inst, cycles).value, Resolve(t, inst, cycles);
    AddInstSlots(t, inst, cycles);
    var n := |t.g|;
    forall i | 0 <= i < n
      ensures Undepended(t'.g, i) <==> Undepended(t.g, i) && v.dep1 != i && v.dep2 != i
    {
      assert t'.g[n] == v;
      assert forall j :: 0 <= j < n ==> t'.g[j] == t.g[j];
    }
  }

  lemma MaxDepthStep(t: Tree, inst: Inst, cycles: nat)
    requires TreeOk(t) && MaxDepthExact(t) && AddInst(t, inst, cycles).Some?
    ensures MaxDepthExact(AddInst(t, inst, cycles).value)
  {
    var t' := AddInst(t, inst, cycles).value;
    var n := |t.g|;
    assert t'.g[n].cycles == cycles;
    if t'.g[n].depth + cycles < t'.maxDepth {
      var i :| 0 <= i < n && t.g[i].depth + t.g[i].cycles == t.maxDepth;
      assert t'.g[i] == t.g[i];
    }
  }

  lemma FaithfulStep(latency: seq<nat>, trace: seq<Inst>, t: Tree)
    requires |trace| > 0 && Decodes(latency, trace) && Faithful(latency, trace[..|trace| - 1], t)
    requires AddInst(t, trace[|trace| - 1], Latency(latency, trace, |trace| - 1)).Some?
    ensures Faithful(latency, trace, AddInst(t, trace[|trace| - 1], Latency(latency, trace, |trace| - 1)).value)
  {
    var n := |trace| - 1;
    var inst, cycles := trace[n], Latency(latency, trace, n);
    var t', v := AddInst(t, inst, cycles).value, Resolve(t, inst, cycles);
    AddInstSlots(t, inst, cycles);
    forall i | 0 <= i < |trace|
      ensures NodeMatches(latency, trace, t'.g, i)
    {
      if i < n {
        OldNodesMatch(latency, trace, t, v, i);
      } else {
        NewNodeMatches(latency, trace, t, v);
      }
    }
    FrontierStep(t, inst, cycles);
    MaxDepthStep(t, inst, cycles);
  }

  /** analyzeProg builds the graph of its trace, whenever it returns. */
  lemma {:induction false} AnalyzeIsFaithful(latency: seq<nat>, trace: seq<Inst>, capacity: nat)
    requires capacity >= 1 && Decodes(latency, trace) && Analyze(latency, trace, capacity).Some?
    ensures Faithful(latency, trace, Analyze(latency, trace, capacity).value)
  {
    if |trace| == 0 {
      InitOk(capacity);
      assert Init(capacity).slots[0] == ENTRY;
    } else {
      AnalyzeIsFaithful(latency, trace[..|trace| - 1], capacity);
      FaithfulStep(latency, trace, Analyze(latency, trace[..|trace| - 1], capacity).value);
    }
  }

  // ---------- dependencies ----------

  /** getInstDeps reports, for each source, the latest earlier writer, and
      rejects exactly the indices outside the trace. */
  lemma DepsAreLastWriters(latency: seq<nat>, trace: seq<Inst>, capacity: nat, idx: nat)
    requires capacity >= 1 && Decodes(latency, trace) && Analyze(latency, trace, capacity).Some?
    ensures GetInstDeps(Analyze(latency, trace, capacity).value, idx) ==
            if idx < |trace| then Some((Src1Dep(trace, idx), Src2Dep(trace, idx))) else None
  {
    AnalyzeIsFaithful(latency, trace, capacity);
    var t := Analyze(latency, trace, capacity).value;
    FindByIdxExact(t, idx);
    if idx < |trace| {
      assert NodeMatches(latency, trace, t.g, idx);
      var v := t.g[idx];
      if v.dep1 != ENTRY {
        assert NodeMatches(latency, trace, t.g, v.dep1) && NodeMatches(latency, trace, t.g, v.dep2);
      }
    }
  }

  // ---------- depths are longest dependency chains ----------

  /** Each instruction of c reads a register last written by the one before it. */
  ghost predicate Chain(trace: seq<Inst>, c: seq<int>) {
    && (forall k :: 0 <= k < |c| ==> 0 <= c[k] < |trace|)
    && (forall k :: 0 < k < |c| ==> c[k - 1] == Src1Dep(trace, c[k]) || c[k - 1] == Src2Dep(trace, c[k]))
  }

  ghost function ChainLatency(latency: seq<nat>, trace: seq<Inst>, c: seq<int>): nat
    requires Decodes(latency, trace) && Chain(trace, c)
  {
    if |c| == 0 then 0
    else ChainLatency(latency, trace, c[..|c| - 1]) + Latency(latency, trace, c[|c| - 1])
  }

  /** c leads into i: every instruction of c, in order, and then i form a chain. */
  ghost predicate ChainInto(trace: seq<Inst>, c: seq<int>, i: nat) {
    Chain(trace, c + [i])
  }

  lemma ChainPrefix(trace: seq<Inst>, c: seq<int>, i: nat)
    requires ChainInto(trace, c, i)
    ensures Chain(trace, c) && i < |trace|
    ensures |c| > 0 ==> ChainInto(trace, c[..|c| - 1], c[|c| - 1])
    ensures |c| > 0 ==> c[|c| - 1] == Src1Dep(trace, i) || c[|c| - 1] == Src2Dep(trace, i)
  {
    var d := c + [i];
    assert forall k :: 0 <= k < |c| ==> d[k] == c[k];
    assert d[|c|] == i;
    if |c| > 0 {
      assert c[..|c| - 1] + [c[|c| - 1]] == c;
    }
  }

  lemma {:induction false} NoChainExceedsDepth(latency: seq<nat>, trace: seq<Inst>, t: Tree, c: seq<int>, i: nat)
    requires Decodes(latency, trace) && Faithful(latency, trace, t) && ChainInto(trace, c, i)
    ensures Chain(trace, c) && i < |trace| && ChainLatency(latency, trace, c) <= t.g[i].depth
    decreases |c|
  {
    ChainPrefix(trace, c, i);
    assert NodeMatches(latency, trace, t.g, i);
    if |c| > 0 {
      var j := c[|c| - 1];
      NoChainExceedsDepth(latency, trace, t, c[..|c| - 1], j);
      assert NodeMatches(latency, trace, t.g, j);
    }
  }

  lemma ChainExtends(latency: seq<nat>, trace: seq<Inst>, c: seq<int>, j: nat, i: nat)
    requires Decodes(latency, trace) && ChainInto(trace, c, j) && Chain(trace, c) && i < |trace|
    requires j == Src1Dep(trace, i) || j == Src2Dep(trace, i)
    ensures ChainInto(trace, c + [j], i) && Chain(trace, c + [j]) && j < |trace|
    ensures ChainLatency(latency, trace, c + [j]) == ChainLatency(latency, trace, c) + Latency(latency, trace, j)
  {
    var d := c + [j];
    assert d[|c|] == j && d[..|d| - 1] == c;
    assert forall k :: 0 <= k < |d| ==> (d + [i])[k] == d[k];
  }

  lemma {:induction false} SomeChainAttainsDepth(latency: seq<nat>, trace: seq<Inst>, t: Tree, i: nat)
    returns (c: seq<int>)
    requires Decodes(latency, trace) && Faithful(latency, trace, t) && i < |trace|
    ensures ChainInto(trace, c, i) && Chain(trace, c) && ChainLatency(latency, trace, c) == t.g[i].depth
    decreases i
  {
    assert NodeMatches(latency, trace, t.g, i);
    var v := t.g[i];
    if v.dep1 == ENTRY {
      c := [];
    } else {
      var j := if t.g[v.dep1].depth + t.g[v.dep1].cycles >= t.g[v.dep2].depth + t.g[v.dep2].cycles
               then v.dep1 else v.dep2;
      c := SomeChainAttainsDepth(latency, trace, t, j);
      assert NodeMatches(latency, trace, t.g, j);
      ChainExtends(latency, trace, c, j, i);
      c := c + [j];
    }
  }

  /** getInstDepth is the largest latency of a chain leading into the
      instruction: no chain exceeds it and some chain attains it. */
  lemma DepthIsLongestChain(latency: seq<nat>, trace: seq<Inst>, capacity: nat, idx: nat)
    requires capacity >= 1 && Decodes(latency, trace) && Analyze(latency, trace, capacity).Some?
    ensures var depth := GetInstDepth(Analyze(latency, trace, capacity).value, idx);
            if idx < |trace| then
              && (forall c :: ChainInto(trace, c, idx) ==> Chain(trace, c) && ChainLatency(latency, trace, c) <= depth)
              && (exists c :: ChainInto(trace, c, idx) && Chain(trace, c) && ChainLatency(latency, trace, c) == depth)
            else depth == -1
  {
    AnalyzeIsFaithful(latency, trace, capacity);
    var t := Analyze(latency, trace, capacity).value;
    FindByIdxExact(t, idx);
    if idx < |trace| {
      forall c | ChainInto(trace, c, idx)
        ensures Chain(trace, c) && ChainLatency(latency, trace, c) <= t.g[idx].depth
      {
        NoChainExceedsDepth(latency, trace, t, c, idx);
      }
      var c := SomeChainAttainsDepth(latency, trace, t, idx);
    }
  }

  lemma NoChainExceedsProgDepth(latency: seq<nat>, trace: seq<Inst>, t: Tree, c: seq<int>)
    requires Decodes(latency, trace) && Faithful(latency, trace, t) && Chain(trace, c)
    ensures ChainLatency(latency, trace, c) <= t.maxDepth
  {
    if |c| > 0 {
      var i := c[|c| - 1];
      assert c == c[..|c| - 1] + [i];
      NoChainExceedsDepth(latency, trace, t, c[..|c| - 1], i);
      assert NodeMatches(latency, trace, t.g, i);
    }
  }

  /** getProgDepth is the largest latency of any chain of the program. */
  lemma ProgDepthIsLongestChain(latency: seq<nat>, trace: seq<Inst>, capacity: nat)
    requires capacity >= 1 && Decodes(latency, trace) && Analyze(latency, trace, capacity).Some?
    ensures var depth := Analyze(latency, trace, capacity).value.maxDepth;
            && (forall c :: Chain(trace, c) ==> ChainLatency(latency, trace, c) <= depth)
            && (exists c :: Chain(trace, c) && ChainLatency(latency, trace, c) == depth)
  {
    AnalyzeIsFaithful(latency, trace, capacity);
    var t := Analyze(latency, trace, capacity).value;
    forall c | Chain(trace, c)
      ensures ChainLatency(latency, trace, c) <= t.maxDepth
    {
      NoChainExceedsProgDepth(latency, trace, t, c);
    }
    if |trace| == 0 {
      assert Chain(trace, []) && ChainLatency(latency, trace, []) == t.maxDepth;
    } else {
      var i :| 0 <= i < |t.g| && t.g[i].depth + t.g[i].cycles == t.maxDepth;
      var c := SomeChainAttainsDepth(latency, trace, t, i);
      assert NodeMatches(latency, trace, t.g, i);
      assert (c + [i])[..|c|] == c;
      assert Chain(trace, c + [i]) && ChainLatency(latency, trace, c + [i]) == t.maxDepth;
    }
  }

  lemma {:induction false} ClimbToFrontier(latency: seq<nat>, trace: seq<Inst>, t: Tree, i: nat) returns (f: nat)
    requires Decodes(latency, trace) && Faithful(latency, trace, t) && i < |t.g|
    ensures f < |t.g| && f in t.slots && t.g[f].depth + t.g[f].cycles >= t.g[i].depth + t.g[i].cycles
    decreases |t.g| - i
  {
    if i in t.slots {
      f := i;
    } else {
      var j :| 0 <= j < |t.g| && (t.g[j].dep1 == i || t.g[j].dep2 == i);
      assert NodeMatches(latency, trace, t.g, j);
      f := ClimbToFrontier(latency, trace, t, j);
    }
  }

  /** The program depth is already reached on the frontier. */
  lemma ProgDepthOnFrontier(latency: seq<nat>, trace: seq<Inst>, capacity: nat)
    requires capacity >= 1 && Decodes(latency, trace) && Analyze(latency, trace, capacity).Some? && |trace| > 0
    ensures var t := Analyze(latency, trace, capacity).value;
            exists f :: 0 <= f < |t.g| && f in t.slots && t.g[f].depth + t.g[f].cycles == t.maxDepth
  {
    AnalyzeIsFaithful(latency, trace, capacity);
    var t := Analyze(latency, trace, capacity).value;
    var i :| 0 <= i < |t.g| && t.g[i].depth + t.g[i].cycles == t.maxDepth;
    var f := ClimbToFrontier(latency, trace, t, i);
  }

  // ---------- the frontier ----------

  /** Instruction i is read by no later instruction of the trace. */
  ghost predicate Unread(trace: seq<Inst>, i: nat) {
    forall j :: 0 <= j < |trace| ==> Src1Dep(trace, j) != i && Src2Dep(trace, j) != i
  }

  lemma UndependedIsUnread(latency: seq<nat>, trace: seq<Inst>, t: Tree, i: nat)
    requires Decodes(latency, trace) && Faithful(latency, trace, t) && i < |trace|
    ensures Undepended(t.g, i) <==> Unread(trace, i)
  {
    forall j | 0 <= j < |trace|
      ensures (t.g[j].dep1 == i || t.g[j].dep2 == i) <==> (Src1Dep(trace, j) == i || Src2Dep(trace, j) == i)
    {
      assert NodeMatches(latency, trace, t.g, j);
    }
  }

  /** The exit node's slots are a gap-free list, in non-decreasing index order,
      of exactly the instructions nothing depends on. */
  lemma FrontierIsUnread(latency: seq<nat>, trace: seq<Inst>, capacity: nat)
    requires capacity >= 1 && Decodes(latency, trace) && Analyze(latency, trace, capacity).Some?
    ensures var t := Analyze(latency, trace, capacity).value;
            && Packed(t.slots) && Sorted(t.slots)
            && (forall x :: x in t.slots && x != NULL ==>
                  if |trace| == 0 then x == ENTRY else 0 <= x < |trace| && Unread(trace, x))
            && (forall i :: 0 <= i < |trace| && Unread(trace, i) ==> i in t.slots)
  {
    AnalyzeIsFaithful(latency, trace, capacity);
    var t := Analyze(latency, trace, capacity).value;
    forall i | 0 <= i < |trace|
      ensures Undepended(t.g, i) <==> Unread(trace, i)
    {
      UndependedIsUnread(latency, trace, t, i);
    }
    assert forall x :: x in t.slots && x != NULL ==> ENTRY <= x < |t.g|;
  }

  /** Adding an instruction empties a slot in the middle of a full array. */
  ghost predicate Overruns(t: Tree, inst: Inst, cycles: nat)
    requires TreeOk(t)
  {
    var v := Resolve(t, inst, cycles);
    Full(t.slots) && MatchBefore(t.slots, 0, v.dep1, v.dep2)
  }

  /** One add_inst keeps the frontier free of repetitions if and only if it
      does not empty a slot in the middle of a full array. */
  lemma NoRepeatUnlessOverrun(t: Tree, inst: Inst, cycles: nat)
    requires TreeOk(t) && StrictlySorted(t.slots) && AddInst(t, inst, cycles).Some?
    ensures StrictlySorted(AddInst(t, inst, cycles).value.slots) <==> !Overruns(t, inst, cycles)
  {
    var v := Resolve(t, inst, cycles);
    RepeatsWhenFull(t.slots, v.dep1, v.dep2);
    AttachSlots(t, v);
  }

  /** add_inst fails to return if and only if the slot array is full and holds
      two of the new instruction's dependencies, one of them in its last slot. */
  lemma AddInstHangsExactly(t: Tree, inst: Inst, cycles: nat)
    requires TreeOk(t)
    ensures var v := Resolve(t, inst, cycles);
            AddInst(t, inst, cycles).None? <==>
            && Full(t.slots)
            && (t.slots[|t.slots| - 1] == v.dep1 || t.slots[|t.slots| - 1] == v.dep2)
            && (exists k :: 0 <= k < |t.slots| - 1 && (t.slots[k] == v.dep1 || t.slots[k] == v.dep2))
  {
    var v := Resolve(t, inst, cycles);
    ExitsUnlessJammed(t.slots, v.dep1, v.dep2);
  }

  // ---------- traces that finish, and traces that do not ----------

  ghost predicate NeverOverruns(latency: seq<nat>, trace: seq<Inst>, capacity: nat)
    requires capacity >= 1 && Decodes(latency, trace)
  {
    |trace| > 0 ==>
      var prefix, inst := trace[..|trace| - 1], trace[|trace| - 1];
      && NeverOverruns(latency, prefix, capacity)
      && (var r := Analyze(latency, prefix, capacity);
          r.Some? ==> !Overruns(r.value, inst, latency[inst.opcode]))
  }

  /** If no add_inst empties a slot in the middle of a full array, analyzeProg
      returns and the frontier lists each instruction once, in increasing order. */
  lemma {:induction false} FrontierWithoutRepeats(latency: seq<nat>, trace: seq<Inst>, capacity: nat)
    requires capacity >= 1 && Decodes(latency, trace) && NeverOverruns(latency, trace, capacity)
    ensures var r := Analyze(latency, trace, capacity); r.Some? && StrictlySorted(r.value.slots)
  {
    if |trace| == 0 {
      InitOk(capacity);
    } else {
      var prefix, inst := trace[..|trace| - 1], trace[|trace| - 1];
      FrontierWithoutRepeats(latency, prefix, capacity);
      var t := Analyze(latency, prefix, capacity).value;
      AddInstHangsExactly(t, inst, latency[inst.opcode]);
      NoRepeatUnlessOverrun(t, inst, latency[inst.opcode]);
    }
  }

  lemma AddInstCount(t: Tree, inst: Inst, cycles: nat)
    requires TreeOk(t) && FrontierExact(t) && AddInst(t, inst, cycles).Some?
    requires |t.g| > 0 ==> !Full(t.slots)
    ensures var t' := AddInst(t, inst, cycles).value;
            && |t'.slots| == |t.slots|
            && FirstNull(t'.slots) <= if |t.g| == 0 then 1 else FirstNull(t.slots) + 1
  {
    var v := Resolve(t, inst, cycles);
    var rest := Disconnected(t.slots, v.dep1, v.dep2);
    AttachSlots(t, v);
    assert forall k :: 0 <= k < FirstNull(rest) ==> rest[k] in rest && rest[k] in t.slots;
  }

  /** A trace no longer than the initial array never overruns it: the array is
      not grown and analyzeProg returns. */
  lemma {:induction false} ShortTracesFit(latency: seq<nat>, trace: seq<Inst>, capacity: nat)
    requires capacity >= 1 && Decodes(latency, trace) && |trace| <= capacity
    ensures NeverOverruns(latency, trace, capacity)
    ensures var r := Analyze(latency, trace, capacity);
            r.Some? && |r.value.slots| == capacity && FirstNull(r.value.slots) <= Max(1, |trace|)
  {
    if |trace| == 0 {
      InitOk(capacity);
    } else {
      var prefix, inst := trace[..|trace| - 1], trace[|trace| - 1];
      ShortTracesFit(latency, prefix, capacity);
      AnalyzeIsFaithful(latency, prefix, capacity);
      var t := Analyze(latency, prefix, capacity).value;
      AddInstHangsExactly(t, inst, latency[inst.opcode]);
      AddInstCount(t, inst, latency[inst.opcode]);
    }
  }

  // ---------- a family of traces on which analyzeProg does not return ----------

  /** n instructions writing registers 1 to n and reading register 0. */
  function Independent(n: nat): (r: seq<Inst>)
    ensures |r| == n && forall i :: 0 <= i < n ==> r[i] == Inst(0, i + 1, 0, 0)
  {
    seq(n, i => Inst(0, i + 1, 0, 0))
  }

  lemma FaithfulResolve(latency: seq<nat>, trace: seq<Inst>, t: Tree)
    requires |trace| > 0 && Decodes(latency, trace) && Faithful(latency, trace[..|trace| - 1], t)
    ensures var n := |trace| - 1;
            var v := Resolve(t, trace[n], Latency(latency, trace, n));
            (v.dep1, v.dep2) == Encode(Src1Dep(trace, n), Src2Dep(trace, n))
  {
    var n := |trace| - 1;
    NewNodeMatches(latency, trace, t, Resolve(t, trace[n], Latency(latency, trace, n)));
  }

  lemma {:induction false} AtLeastPosition(slots: seq<int>, k: nat)
    requires StrictlySorted(slots) && k < FirstNull(slots) && slots[0] >= 0
    ensures slots[k] >= k
  {
    if k > 0 {
      AtLeastPosition(slots, k - 1);
    }
  }

  /** A strictly increasing array that holds 0 to n - 1 holds them in order. */
  lemma {:induction false} FilledInOrder(slots: seq<int>, n: nat, i: nat)
    requires |slots| == n && Packed(slots) && StrictlySorted(slots) && i <= n
    requires forall x :: x in slots && x != NULL ==> 0 <= x < n
    requires forall x :: 0 <= x < n ==> x in slots
    ensures i <= FirstNull(slots) && forall k :: 0 <= k < i ==> slots[k] == k
  {
    if i > 0 {
      FilledInOrder(slots, n, i - 1);
      assert i - 1 in slots;
      var k :| 0 <= k < n && slots[k] == i - 1;
      assert slots[0] in slots;
      AtLeastPosition(slots, k);
    }
  }

  lemma IndependentDeps(trace: seq<Inst>, n: nat, i: nat)
    requires n < U32_SIZE && n <= |trace| && trace[..n] == Independent(n) && i < n
    ensures Src1Dep(trace, i) == ENTRY && Src2Dep(trace, i) == ENTRY
    ensures LastWriter(trace, n, i + 1) == i
  {
    assert forall j :: 0 <= j < n ==> trace[j] == trace[..n][j];
    var w := LastWriter(trace, i, 0);
    var u := LastWriter(trace, n, i + 1);
    assert U32(trace[i].dst) == i + 1;
  }

  lemma IndependentTree(capacity: nat)
    requires 1 <= capacity < U32_SIZE
    ensures var r := Analyze([1], Independent(capacity), capacity);
            && r.Some? && |r.value.slots| == capacity && Full(r.value.slots)
            && (forall i :: 0 <= i < capacity ==> r.value.slots[i] == i)
  {
    var trace := Independent(capacity);
    ShortTracesFit([1], trace, capacity);
    FrontierWithoutRepeats([1], trace, capacity);
    FrontierIsUnread([1], trace, capacity);
    var t := Analyze([1], trace, capacity).value;
    forall i | 0 <= i < capacity
      ensures i in t.slots
    {
      forall j | 0 <= j < capacity
        ensures Src1Dep(trace, j) == ENTRY && Src2Dep(trace, j) == ENTRY
      {
        assert trace[..capacity] == trace;
        IndependentDeps(trace, capacity, j);
      }
      assert Unread(trace, i);
    }
    FilledInOrder(t.slots, capacity, capacity);
  }

  /** For every initial capacity of at least two, as many independent
      instructions followed by one reading the last of them and an earlier one
      keep add_inst in its disconnecting loop forever. */
  lemma FullFrontierHangs(capacity: nat, reader: Inst)
    requires 2 <= capacity < U32_SIZE && reader.opcode == 0
    requires 1 <= reader.src1 < capacity && reader.src2 == capacity
    ensures Analyze([1], Independent(capacity) + [reader], capacity).None?
  {
    var trace := Independent(capacity) + [reader];
    var prefix := trace[..capacity];
    assert prefix == Independent(capacity);
    IndependentTree(capacity);
    AnalyzeIsFaithful([1], prefix, capacity);
    var t := Analyze([1], prefix, capacity).value;
    var v := Resolve(t, reader, 1);
    FaithfulResolve([1], trace, t);
    IndependentDeps(trace, capacity, reader.src1 - 1);
    IndependentDeps(trace, capacity, capacity - 1);
    assert t.slots[reader.src1 - 1] == v.dep1;
    assert t.slots[capacity - 1] == v.dep2;
    AddInstHangsExactly(t, reader, 1);
  }

  /** One such trace for the capacity the program starts with. */
  lemma ShippedCapacityHangs()
    ensures Analyze([1], Independent(EXIT_START_SIZE) + [Inst(0, 0, 1, EXIT_START_SIZE)], EXIT_START_SIZE).None?
  {
    FullFrontierHangs(EXIT_START_SIZE, Inst(0, 0, 1, EXIT_START_SIZE));
  }
}
