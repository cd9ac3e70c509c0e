/** On which traces analyzeProg returns: an exact condition in terms of the
    instructions and of when the slot array is full. */
module DataflowTermination {
  import opened Bits
  import opened DisconnectLoop
  import opened DataflowModel
  import opened DataflowReach
  import opened DataflowTheorems

  /** One of r1 and r2 is the last instruction of the trace, the other an
      earlier one that no instruction reads. */
  ghost predicate LastAndUnread(trace: seq<Inst>, r1: int, r2: int) {
    || (r1 == |trace| - 1 && 0 <= r2 < |trace| - 1 && Unread(trace, r2))
    || (r2 == |trace| - 1 && 0 <= r1 < |trace| - 1 && Unread(trace, r1))
  }

  /** Instruction n reads the one just before it, and another that no
      instruction before n has read. */
  ghost predicate ReadsLastAndUnread(trace: seq<Inst>, n: nat)
    requires n < |trace|
  {
    LastAndUnread(trace[..n], Src1Dep(trace, n), Src2Dep(trace, n))
  }

  /** analyzeProg returns on the trace with every slot in use. */
  ghost predicate Fills(latency: seq<nat>, trace: seq<Inst>, capacity: nat)
    requires capacity >= 1 && Decodes(latency, trace)
  {
    var r := Analyze(latency, trace, capacity);
    r.Some? && Full(r.value.slots)
  }

  ghost predicate HangsAt(latency: seq<nat>, trace: seq<Inst>, capacity: nat, n: nat)
    requires capacity >= 1 && Decodes(latency, trace) && n < |trace|
  {
    Fills(latency, trace[..n], capacity) && ReadsLastAndUnread(trace, n)
  }

  /** The last slot in use holds the latest instruction, the others do not. */
  lemma LatestIsLast(latency: seq<nat>, trace: seq<Inst>, capacity: nat)
    requires capacity >= 1 && Decodes(latency, trace) && |trace| > 0
    requires Analyze(latency, trace, capacity).Some?
    ensures var slots := Analyze(latency, trace, capacity).value.slots;
            && FirstNull(slots) > 0 && slots[FirstNull(slots) - 1] == |trace| - 1
            && (forall k :: 0 <= k < FirstNull(slots) - 1 ==> slots[k] < |trace| - 1)
  {
    var prefix, inst := trace[..|trace| - 1], trace[|trace| - 1];
    AnalyzeIsFaithful(latency, prefix, capacity);
    var t := Analyze(latency, prefix, capacity).value;
    AttachSlots(t, Resolve(t, inst, latency[inst.opcode]));
  }

  /** The condition of the disconnecting loop, for a full array of a trace. */
  lemma FullArrayJams(latency: seq<nat>, trace: seq<Inst>, capacity: nat, d: int)
    requires capacity >= 1 && Decodes(latency, trace) && Fills(latency, trace, capacity) && d >= 0
    ensures var slots := Analyze(latency, trace, capacity).value.slots;
            && (slots[|slots| - 1] == d <==> d == |trace| - 1)
            && ((exists k :: 0 <= k < |slots| - 1 && slots[k] == d) <==> d < |trace| - 1 && Unread(trace, d))
  {
    var t := Analyze(latency, trace, capacity).value;
    FrontierIsUnread(latency, trace, capacity);
    if |trace| > 0 {
      LatestIsLast(latency, trace, capacity);
    }
    forall k | 0 <= k < |t.slots|
      ensures t.slots[k] != NULL && t.slots[k] in t.slots
    {
    }
    if d < |trace| - 1 && Unread(trace, d) {
      assert d in t.slots;
    }
  }

  lemma FullArrayJamsExactly(latency: seq<nat>, trace: seq<Inst>, capacity: nat, r1: int, r2: int)
    requires capacity >= 1 && Decodes(latency, trace) && Fills(latency, trace, capacity)
    requires ENTRY <= r1 < |trace| && ENTRY <= r2 < |trace|
    ensures var (d1, d2) := Encode(r1, r2);
            Jams(Analyze(latency, trace, capacity).value.slots, d1, d2) <==> LastAndUnread(trace, r1, r2)
  {
    var (d1, d2) := Encode(r1, r2);
    if d1 != ENTRY {
      FullArrayJams(latency, trace, capacity, d1);
      FullArrayJams(latency, trace, capacity, d2);
    } else if |trace| > 0 {
      LatestIsLast(latency, trace, capacity);
    }
  }

  /** When the last instruction of a trace hangs. */
  lemma LastHangs(latency: seq<nat>, trace: seq<Inst>, capacity: nat)
    requires capacity >= 1 && Decodes(latency, trace) && |trace| > 0
    requires Analyze(latency, trace[..|trace| - 1], capacity).Some?
    ensures Analyze(latency, trace, capacity).None? <==> HangsAt(latency, trace, capacity, |trace| - 1)
  {
    var n := |trace| - 1;
    var prefix, inst := trace[..n], trace[n];
    AnalyzeIsFaithful(latency, prefix, capacity);
    var t := Analyze(latency, prefix, capacity).value;
    var v := Resolve(t, inst, latency[inst.opcode]);
    FaithfulResolve(latency, trace, t);
    ExitsUnlessJammed(t.slots, v.dep1, v.dep2);
    if Full(t.slots) {
      FullArrayJamsExactly(latency, prefix, capacity, Src1Dep(trace, n), Src2Dep(trace, n));
    }
  }

  lemma HangsAtPrefix(latency: seq<nat>, trace: seq<Inst>, capacity: nat, m: nat, n: nat)
    requires capacity >= 1 && Decodes(latency, trace) && n < m <= |trace|
    ensures HangsAt(latency, trace[..m], capacity, n) <==> HangsAt(latency, trace, capacity, n)
  {
    assert trace[..m][..n] == trace[..n];
    LastWriterOfPrefix(trace, m, n, trace[n].src1);
    LastWriterOfPrefix(trace, m, n, trace[n].src2);
  }

  /** One more instruction of the trace. */
  lemma HangsStep(latency: seq<nat>, trace: seq<Inst>, capacity: nat, n: nat)
    requires capacity >= 1 && Decodes(latency, trace) && n < |trace|
    ensures Analyze(latency, trace[..n + 1], capacity).None? <==>
            Analyze(latency, trace[..n], capacity).None? || HangsAt(latency, trace, capacity, n)
  {
    var longer := trace[..n + 1];
    assert longer[..n] == trace[..n];
    if Analyze(latency, trace[..n], capacity).Some? {
      LastHangs(latency, longer, capacity);
      HangsAtPrefix(latency, trace, capacity, n + 1, n);
    }
  }

  /** A property that holds from the first step on which p does. */
  lemma {:induction false} HoldsFromFirst(p: nat -> bool, q: nat -> bool, m: nat)
    requires !q(0) && forall n: nat :: n < m ==> (q(n + 1) <==> q(n) || p(n))
    ensures q(m) <==> exists n: nat :: n < m && p(n)
  {
    if m > 0 {
      HoldsFromFirst(p, q, m - 1);
      assert q((m - 1) + 1) <==> q(m - 1) || p(m - 1);
    }
  }

  /** analyzeProg fails to return if and only if some prefix of the trace fills
      the slot array and the next instruction reads both the instruction before
      it and another one not read so far. */
  lemma AnalyzeHangsExactly(latency: seq<nat>, trace: seq<Inst>, capacity: nat)
    requires capacity >= 1 && Decodes(latency, trace)
    ensures Analyze(latency, trace, capacity).None? <==>
            exists n: nat :: n < |trace| && HangsAt(latency, trace, capacity, n)
  {
    var p := (n: nat) => n < |trace| && HangsAt(latency, trace, capacity, n);
    var q := (n: nat) => n <= |trace| && Analyze(latency, trace[..n], capacity).None?;
    forall n: nat | n < |trace|
      ensures q(n + 1) <==> q(n) || p(n)
    {
      HangsStep(latency, trace, capacity, n);
    }
    HoldsFromFirst(p, q, |trace|);
    assert trace[..|trace|] == trace;
    assert forall n: nat :: p(n) <==> n < |trace| && HangsAt(latency, trace, capacity, n);
  }
}
