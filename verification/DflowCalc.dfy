/** The dependency graph as the program keeps it: nodes linked by references,
    and the exit node's array of references, updated in place. `model` is the
    value of the whole structure; every method is proved against it. */
module DflowCalc {
  import opened Bits
  import opened DisconnectLoop
  import M = DataflowModel
  import Q = DataflowQueries
  import C = DataflowCollect

  const ENTRY := M.ENTRY

  class InstNode {
    var instIdx: int
    var cycles: nat
    var writeReg: Word
    var readReg1: Word
    var readReg2: Word
    var instDepth: nat // not counting the instruction's own cycles
    var dep1: InstNode?
    var dep2: InstNode?

    constructor (idx: int, cycles: nat, writeReg: Word, readReg1: Word, readReg2: Word)
      ensures instIdx == idx && this.cycles == cycles && this.writeReg == writeReg
      ensures this.readReg1 == readReg1 && this.readReg2 == readReg2
      ensures instDepth == 0 && dep1 == null && dep2 == null
    {
      this.instIdx, this.cycles := idx, cycles;
      this.writeReg, this.readReg1, this.readReg2 := writeReg, readReg1, readReg2;
      this.instDepth, this.dep1, this.dep2 := 0, null, null;
    }
  }

  class DepTree {
    const entry: InstNode
    var numInsts: nat
    var deps: array<InstNode?> // the exit node's dependencies
    var maxDepth: nat
    ghost var nodes: seq<InstNode>
    ghost var model: M.Tree

    /** The node named by an index. */
    ghost function At(i: int): InstNode
      requires ENTRY <= i < |nodes|
      reads `nodes
    {
      if i == ENTRY then entry else nodes[i]
    }

    /** Node i has the fields and the links the model gives it. */
    ghost predicate Represents(i: nat)
      requires M.WellFormed(model.g) && i < |nodes| == |model.g|
      reads `nodes, `model, nodes
    {
      var n, v := nodes[i], model.g[i];
      && n.cycles == v.cycles && n.writeReg == v.writeReg
      && n.readReg1 == v.read1 && n.readReg2 == v.read2 && n.instDepth == v.depth
      && n.dep1 == At(v.dep1) && n.dep2 == At(v.dep2)
    }

    /** The nodes are linked as the model says. */
    ghost predicate Linked()
      reads `nodes, `model, entry, nodes
    {
      && M.WellFormed(model.g) && |nodes| == |model.g|
      && entry.instIdx == ENTRY && entry.cycles == 0 && entry.writeReg == U32(Q.NO_REG)
      && (forall i :: 0 <= i < |nodes| ==> nodes[i].instIdx == i)
      && (forall i {:trigger Represents(i)} :: 0 <= i < |nodes| ==> Represents(i))
    }

    /** References that stand for indices. */
    ghost predicate Stands(refs: seq<InstNode?>, slots: seq<int>)
      reads `nodes, `model
    {
      && |refs| == |slots| && M.InRange(model.g, slots) && |nodes| == |model.g|
      && (forall k :: 0 <= k < |slots| ==> refs[k] == if slots[k] == NULL then null else At(slots[k]))
    }

    ghost predicate Holds(slots: seq<int>)
      reads `nodes, `model, `deps, deps
    {
      Stands(deps[..], slots)
    }

    ghost predicate Consistent()
      reads this, entry, nodes, deps
    {
      Linked() && Holds(model.slots)
    }

    ghost predicate Valid()
      reads this, entry, nodes, deps
    {
      M.TreeOk(model) && Consistent() && maxDepth == model.maxDepth && numInsts == |nodes|
    }

    /** The empty tree. */
    constructor (capacity: nat)
      requires capacity >= 1
      ensures Valid() && fresh(entry) && fresh(deps) && model == M.Init(capacity) && nodes == []
    {
      var e := new InstNode(ENTRY, 0, U32(Q.NO_REG), U32(Q.NO_REG), U32(Q.NO_REG));
      var d: array<InstNode?> := new InstNode?[capacity](_ => null);
      d[0] := e;
      entry, deps, numInsts, maxDepth := e, d, 0, 0;
      nodes, model := [], M.Init(capacity);
      M.InitOk(capacity);
    }

    // ---------- find_node ----------

    /** A search result: null stands for the entry node. */
    ghost function Found(i: int): InstNode?
      requires ENTRY <= i < |nodes|
      reads `nodes
    {
      if i == ENTRY then null else At(i)
    }

    function FindNode(root: InstNode, reg: Word): (r: InstNode?)
      requires Linked() && ENTRY <= root.instIdx < |nodes| && root == At(root.instIdx)
      reads this, entry, nodes, root
      ensures r == Found(M.FindNode(model.g, root.instIdx, reg))
      decreases root.instIdx + 1
    {
      if root.instIdx == ENTRY then null
      else
        assert Represents(root.instIdx);
        if root.writeReg == reg then root
        else
          var first := FindNode(root.dep1, reg);
          var second := FindNode(root.dep2, reg);
          if first != null && second == null then first
          else if second != null && first == null then second
          else if second != null && first != null then
            if first.instIdx > second.instIdx then first else second
          else null
    }

    /** The match of slot k, if it is more recent than the one found so far. */
    function MoreRecent(k: nat, reg: Word, recent: InstNode?, ghost best: int): (r: InstNode?)
      requires Consistent() && k < deps.Length && deps[k] != null
      requires ENTRY <= best < |nodes| && recent == Found(best)
      reads this, entry, nodes, deps
      ensures r == Found(M.MoreRecent(M.FindNode(model.g, model.slots[k], reg), best))
    {
      var dep := FindNode(deps[k], reg);
      if dep != null && (recent == null || dep.instIdx > recent.instIdx) then dep else recent
    }

    /** The first loop of add_inst: the most recent writer of a register. */
    method SearchExit(reg1: Word, reg2: Word) returns (recent1: InstNode?, recent2: InstNode?)
      requires Consistent()
      ensures recent1 == Found(M.Search(model.g, model.slots, 0, reg1, ENTRY))
      ensures recent2 == Found(M.Search(model.g, model.slots, 0, reg2, ENTRY))
    {
      recent1, recent2 := null, null;
      ghost var best1, best2 := ENTRY, ENTRY;
      for i := 0 to deps.Length
        invariant ENTRY <= best1 < |nodes| && recent1 == Found(best1)
        invariant ENTRY <= best2 < |nodes| && recent2 == Found(best2)
        invariant M.Search(model.g, model.slots, i, reg1, best1) == M.Search(model.g, model.slots, 0, reg1, ENTRY)
        invariant M.Search(model.g, model.slots, i, reg2, best2) == M.Search(model.g, model.slots, 0, reg2, ENTRY)
      {
        if deps[i] == null {
          break;
        }
        recent1 := MoreRecent(i, reg1, recent1, best1);
        recent2 := MoreRecent(i, reg2, recent2, best2);
        best1 := M.MoreRecent(M.FindNode(model.g, model.slots[i], reg1), best1);
        best2 := M.MoreRecent(M.FindNode(model.g, model.slots[i], reg2), best2);
      }
    }

    // ---------- add_inst ----------

    /** Emptying slot i and shifting the later slots down. */
    static method ShiftDown(a: array<InstNode?>, i: nat)
      requires i < a.Length
      modifies a
      ensures a[..] == Shift(old(a[..]), i, null)
    {
      ghost var was := a[..];
      a[i] := null;
      for j := i to a.Length - 1
        invariant forall k :: 0 <= k < i ==> a[k] == was[k]
        invariant forall k :: i <= k < j ==> a[k] == was[k + 1]
        invariant forall k :: j <= k < a.Length ==> a[k] == if k == i then null else was[k]
      {
        a[j] := a[j + 1];
      }
      IsShift(was, i, null, a[..]);
    }

    lemma StandsShifted(refs: seq<InstNode?>, i: nat, slots: seq<int>)
      requires Stands(refs, slots) && i < |slots|
      ensures Stands(Shift(refs, i, null), RemoveSlot(slots, i))
    {
      forall k | 0 <= k < |slots|
        ensures var x := RemoveSlot(slots, i)[k];
                && (x == NULL || ENTRY <= x < |model.g|)
                && Shift(refs, i, null)[k] == if x == NULL then null else At(x)
      {
        ShiftAt(refs, i, null, k);
        ShiftAt(slots, i, NULL, k);
      }
    }

    /** Emptying a slot of the exit node's array. */
    method RemoveDep(i: nat, ghost slots: seq<int>)
      requires Linked() && Holds(slots) && i < deps.Length
      modifies deps
      ensures Linked() && Holds(RemoveSlot(slots, i))
    {
      StandsShifted(deps[..], i, slots);
      ShiftDown(deps, i);
    }

    /** One iteration of the loop that disconnects the two dependencies from
        the exit node, past its loop test. */
    method DisconnectAt(i: nat, d1: int, d2: int, ghost slots: seq<int>) returns (exited: bool, i': nat)
      requires Linked() && Holds(slots) && i < deps.Length && deps[i] != null
      modifies deps
      ensures Linked() && Holds(Iteration(slots, i, d1, d2).a)
      ensures exited <==> Iteration(slots, i, d1, d2).Exited?
      ensures !exited ==> i' == Iteration(slots, i, d1, d2).i
    {
      var foundMatch := false;
      ghost var a := slots;
      if deps[i].instIdx == d1 {
        RemoveDep(i, a);
        a := RemoveSlot(a, i);
        foundMatch := true;
      }
      if deps[i] == null {
        return true, i;
      }
      if deps[i].instIdx == d2 {
        RemoveDep(i, a);
        a := RemoveSlot(a, i);
        foundMatch := true;
      }
      return false, if foundMatch then i else i + 1;
    }

    /** The whole loop, which must exit. */
    method Disconnect(d1: int, d2: int)
      requires Consistent() && Exits(model.slots, d1, d2)
      modifies deps
      ensures Linked() && Holds(Disconnected(model.slots, d1, d2))
    {
      ghost var slots := model.slots;
      ghost var steps := StartOnTrack(slots, d1, d2);
      ghost var state := Running(slots, 0);
      var i: nat, exited := 0, false;
      while !exited && i < deps.Length && deps[i] != null
        invariant Linked() && Holds(state.a)
        invariant OnTrack(slots, d1, d2, state, steps)
        invariant if exited then state.Exited? else state == Running(state.a, i)
        decreases steps
      {
        NextOnTrack(slots, d1, d2, state, steps);
        exited, i := DisconnectAt(i, d1, d2, state.a);
        state := Next(state, d1, d2);
        steps := steps - 1;
      }
      if !exited {
        NextOnTrack(slots, d1, d2, state, steps);
        state := Next(state, d1, d2);
      }
      ExitedOnTrack(slots, d1, d2, state, if exited then steps else steps - 1);
    }

    /** inst is a new node, not yet in the graph, for the given instruction. */
    ghost predicate IsNew(inst: InstNode, info: M.Inst)
      reads this, inst
    {
      && inst !in nodes && inst != entry && inst.instIdx == |nodes|
      && inst.writeReg == U32(info.dst) && inst.readReg1 == info.src1 && inst.readReg2 == info.src2
    }

    /** Storing the two search results as dependencies. */
    method SetDeps(inst: InstNode, recent1: InstNode?, recent2: InstNode?, ghost r1: int, ghost r2: int)
      requires ENTRY <= r1 < |nodes| && recent1 == Found(r1)
      requires ENTRY <= r2 < |nodes| && recent2 == Found(r2)
      requires forall k :: 0 <= k < |nodes| ==> nodes[k].instIdx == k
      modifies inst`dep1, inst`dep2
      ensures inst.dep1 == At(M.Encode(r1, r2).0) && inst.dep2 == At(M.Encode(r1, r2).1)
    {
      if recent1 == null && recent2 == null {
        inst.dep1, inst.dep2 := entry, entry;
      } else if recent1 != null && recent2 == null {
        inst.dep1, inst.dep2 := recent1, recent1;
      } else if recent2 != null && recent1 == null {
        inst.dep1, inst.dep2 := recent2, recent2;
      } else {
        inst.dep1, inst.dep2 := recent1, recent2;
      }
    }

    /** The dependencies and the depth of a new instruction. */
    method Resolve(inst: InstNode, ghost info: M.Inst)
      requires M.TreeOk(model) && Consistent() && IsNew(inst, info)
      modifies inst`dep1, inst`dep2, inst`instDepth
      ensures Consistent()
      ensures var v := M.Resolve(model, info, inst.cycles);
              inst.dep1 == At(v.dep1) && inst.dep2 == At(v.dep2) && inst.instDepth == v.depth
    {
      var recent1, recent2 := SearchExit(inst.readReg1, inst.readReg2);
      ghost var r1 := M.Search(model.g, model.slots, 0, info.src1, ENTRY);
      ghost var r2 := M.Search(model.g, model.slots, 0, info.src2, ENTRY);
      SetDeps(inst, recent1, recent2, r1, r2);
      if recent1 == null && recent2 == null {
        inst.instDepth := 0;
      } else {
        assert Represents(M.Encode(r1, r2).0) && Represents(M.Encode(r1, r2).1);
        inst.instDepth := Max(inst.dep1.instDepth + inst.dep1.cycles, inst.dep2.instDepth + inst.dep2.cycles);
      }
    }

    /** after is refs with the newest node in the first empty slot p, or in an
        array of twice the length if no slot is empty. */
    lemma StandsInserted(refs: seq<InstNode?>, slots: seq<int>, p: nat, after: seq<InstNode?>)
      requires Stands(refs, slots) && |slots| >= 1 && |nodes| > 0
      requires p <= |refs| && (forall k :: 0 <= k < p ==> refs[k] != null) && (p < |refs| ==> refs[p] == null)
      requires after == if p < |refs| then refs[p := nodes[|nodes| - 1]]
                        else refs + [nodes[|nodes| - 1]] + seq(|refs| - 1, (_: int) => null)
      ensures Stands(after, M.Insert(slots, |nodes| - 1))
    {
      FirstNullIs(slots, p);
    }

    /** An array of twice the length, with inst behind the old contents. */
    static method Doubled(deps: array<InstNode?>, inst: InstNode) returns (newDeps: array<InstNode?>)
      requires deps.Length >= 1
      ensures fresh(newDeps)
      ensures newDeps[..] == deps[..] + [inst] + seq(deps.Length - 1, (_: int) => null)
    {
      newDeps := new InstNode?[2 * deps.Length](_ => null);
      for i := 0 to deps.Length
        invariant forall k :: 0 <= k < newDeps.Length ==> newDeps[k] == if k < i then deps[k] else null
      {
        newDeps[i] := deps[i];
      }
      newDeps[deps.Length] := inst;
    }

    /** Storing inst in the first empty slot; p is that slot, or the length if there is none. */
    static method PutInFirstNull(a: array<InstNode?>, inst: InstNode) returns (p: nat)
      modifies a
      ensures p <= a.Length && forall k :: 0 <= k < p ==> old(a[..])[k] != null
      ensures p < a.Length ==> old(a[..])[p] == null && a[..] == old(a[..])[p := inst]
      ensures p == a.Length ==> a[..] == old(a[..])
    {
      p := 0;
      while p < a.Length
        invariant p <= a.Length && a[..] == old(a[..])
        invariant forall k :: 0 <= k < p ==> old(a[..])[k] != null
      {
        if a[p] == null {
          a[p] := inst;
          return;
        }
        p := p + 1;
      }
    }

    /** Storing the newest node in the first empty slot, or in a doubled array. */
    method Append(inst: InstNode, ghost slots: seq<int>)
      requires Stands(deps[..], slots) && |slots| >= 1 && |nodes| > 0 && inst == nodes[|nodes| - 1]
      modifies this`deps, deps
      ensures deps == old(deps) || fresh(deps)
      ensures Stands(deps[..], M.Insert(slots, |nodes| - 1))
    {
      ghost var refs := deps[..];
      var p := PutInFirstNull(deps, inst);
      if p == deps.Length {
        deps := Doubled(deps, inst);
      }
      StandsInserted(refs, slots, p, deps[..]);
    }

    /** The node enters the graph of the model. */
    ghost method Attach(inst: InstNode, v: M.Node, slots: seq<int>, t: M.Tree)
      requires Linked() && Holds(slots)
      requires inst !in nodes && inst != entry && inst.instIdx == |nodes|
      requires M.WellFormed(t.g) && t.g == model.g + [v]
      requires inst.cycles == v.cycles && inst.writeReg == v.writeReg
      requires inst.readReg1 == v.read1 && inst.readReg2 == v.read2 && inst.instDepth == v.depth
      requires ENTRY <= v.dep1 < |nodes| && ENTRY <= v.dep2 < |nodes|
      requires inst.dep1 == At(v.dep1) && inst.dep2 == At(v.dep2)
      modifies this`nodes, this`model
      ensures nodes == old(nodes) + [inst]
      ensures model == t && Linked() && Holds(slots)
    {
      forall i | 0 <= i < |nodes|
        ensures Represents(i)
      {
      }
      label before:
      nodes, model := nodes + [inst], t;
      forall i | 0 <= i < |nodes|
        ensures Represents(i)
      {
        if i < |nodes| - 1 {
          assert old@before(Represents(i));
        }
      }
    }

    /** The exit node lets go of the dependencies and takes the new node. */
    method Reconnect(inst: InstNode, ghost v: M.Node, ghost t: M.Tree)
      requires Consistent() && |model.slots| >= 1 && Exits(model.slots, v.dep1, v.dep2)
      requires inst !in nodes && inst != entry && inst.instIdx == |nodes|
      requires inst.cycles == v.cycles && inst.writeReg == v.writeReg
      requires inst.readReg1 == v.read1 && inst.readReg2 == v.read2 && inst.instDepth == v.depth
      requires M.WellFormed(t.g) && t.g == model.g + [v] && ENTRY <= v.dep1 < |nodes| && ENTRY <= v.dep2 < |nodes|
      requires inst.dep1 == At(v.dep1) && inst.dep2 == At(v.dep2)
      modifies this`deps, this`nodes, this`model, deps
      ensures Linked() && nodes == old(nodes) + [inst] && model == t
      ensures Holds(M.Insert(Disconnected(old(model).slots, v.dep1, v.dep2), |old(nodes)|))
      ensures deps == old(deps) || fresh(deps)
    {
      ghost var rest := Disconnected(model.slots, v.dep1, v.dep2);
      Disconnect(inst.dep1.instIdx, inst.dep2.instIdx);
      Attach(inst, v, rest, t);
      Append(inst, rest);
    }

    /** add_inst, on a new node whose fields are set. The disconnecting loop
        must exit, which is what M.AddInst being Some says. */
    method AddInst(inst: InstNode, ghost info: M.Inst)
      requires M.TreeOk(model) && Consistent() && maxDepth == model.maxDepth && IsNew(inst, info)
      requires M.AddInst(model, info, inst.cycles).Some?
      modifies this`maxDepth, this`deps, this`nodes, this`model, deps, inst`dep1, inst`dep2, inst`instDepth
      ensures M.TreeOk(model) && Consistent() && maxDepth == model.maxDepth
      ensures model == M.AddInst(old(model), info, inst.cycles).value
      ensures nodes == old(nodes) + [inst]
      ensures deps == old(deps) || fresh(deps)
    {
      ghost var v := M.Resolve(model, info, inst.cycles);
      ghost var t := M.AddInst(model, info, inst.cycles).value;
      M.AddInstParts(model, info, inst.cycles);
      Resolve(inst, info);
      maxDepth := Max(maxDepth, inst.instDepth + inst.cycles);
      Reconnect(inst, v, t);
    }

    /** One iteration of analyzeProg: a node for the next instruction. */
    method AnalyzeNext(info: M.Inst, cycles: nat)
      requires Valid() && M.AddInst(model, info, cycles).Some?
      modifies this`numInsts, this`maxDepth, this`deps, this`nodes, this`model, deps
      ensures Valid() && model == M.AddInst(old(model), info, cycles).value
      ensures deps == old(deps) || fresh(deps)
    {
      var inst := new InstNode(numInsts, cycles, U32(info.dst), info.src1, info.src2);
      numInsts := numInsts + 1;
      AddInst(inst, info);
    }

    // ---------- queries ----------

    function FindByIdxNode(inst: InstNode, idx: nat): (r: InstNode?)
      requires Linked() && ENTRY <= inst.instIdx < |nodes| && inst == At(inst.instIdx)
      reads `nodes, `model, entry, nodes, inst
      ensures r == Found(Q.FindByIdxNode(model.g, inst.instIdx, idx))
      decreases inst.instIdx + 1
    {
      if inst.instIdx == ENTRY then null
      else if inst.instIdx == idx then inst
      else
        assert Represents(inst.instIdx);
        var inst1 := FindByIdxNode(inst.dep1, idx);
        var inst2 := if inst.dep1.instIdx != inst.dep2.instIdx then FindByIdxNode(inst.dep2, idx) else null;
        if inst1 != null then inst1
        else if inst2 != null then inst2
        else null
    }

    method FindByIdx(idx: nat) returns (r: InstNode?)
      requires Valid()
      ensures r == Found(Q.FindByIdx(model.g, model.slots, 0, idx))
    {
      for i := 0 to deps.Length
        invariant Q.FindByIdx(model.g, model.slots, i, idx) == Q.FindByIdx(model.g, model.slots, 0, idx)
      {
        if deps[i] == null {
          return null;
        }
        var inst := FindByIdxNode(deps[i], idx);
        if inst != null {
          return inst;
        }
      }
      return null;
    }

    method GetInstDepth(idx: nat) returns (depth: int)
      requires Valid()
      ensures depth == Q.GetInstDepth(model, idx)
    {
      var inst := FindByIdx(idx);
      if inst != null {
        assert Represents(inst.instIdx);
        return inst.instDepth;
      }
      return -1;
    }

    /** ok is the source's return code 0; the other results then are its out-parameters. */
    method GetInstDeps(idx: nat) returns (ok: bool, src1Dep: int, src2Dep: int)
      requires Valid()
      ensures var r := Q.GetInstDeps(model, idx);
              ok == r.Some? && (ok ==> (src1Dep, src2Dep) == r.value)
    {
      var inst := FindByIdx(idx);
      if inst == null {
        return false, ENTRY, ENTRY;
      }
      assert Represents(inst.instIdx);
      ghost var v := model.g[inst.instIdx];
      assert v.dep1 != ENTRY ==> Represents(v.dep1) && Represents(v.dep2);
      ok := true;
      if inst.dep1.instIdx != inst.dep2.instIdx {
        src1Dep, src2Dep := inst.dep1.instIdx, inst.dep2.instIdx;
      } else if inst.readReg1 == inst.readReg2 {
        src1Dep, src2Dep := inst.dep1.instIdx, inst.dep2.instIdx;
      } else if inst.dep1.writeReg == inst.readReg1 {
        src1Dep, src2Dep := inst.dep1.instIdx, ENTRY;
      } else if inst.dep2.writeReg == inst.readReg2 {
        src1Dep, src2Dep := ENTRY, inst.dep2.instIdx;
      } else {
        src1Dep, src2Dep := ENTRY, ENTRY;
      }
    }

    function GetProgDepth(): (depth: nat)
      requires Valid()
      reads this, entry, nodes, deps
      ensures depth == model.maxDepth
    {
      maxDepth
    }

    // ---------- freeProgCtx ----------

    /** The first entries of a node set are the collected nodes, the others null. */
    ghost predicate Collected(refs: seq<InstNode?>, acc: seq<int>)
      reads `nodes, `model
    {
      && |nodes| == |model.g| == |refs| && C.NodeSet(acc, |nodes|) && |acc| <= |refs|
      && (forall k :: 0 <= k < |acc| ==> refs[k] == nodes[acc[k]])
      && (forall k :: |acc| <= k < |refs| ==> refs[k] == null)
    }

    method ExistsInSet(nodeSet: array<InstNode?>, idx: nat, ghost acc: seq<int>) returns (b: bool)
      requires Linked() && Collected(nodeSet[..], acc)
      ensures b <==> idx in acc
    {
      for i := 0 to nodeSet.Length
        invariant i <= |acc| && forall k :: 0 <= k < i ==> acc[k] != idx
      {
        if nodeSet[i] == null {
          return false;
        }
        if nodeSet[i].instIdx == idx {
          return true;
        }
      }
      return false;
    }

    method AddToNodeSet(nodeSet: array<InstNode?>, inst: InstNode, j: nat, ghost acc: seq<int>) returns (j': nat)
      requires Linked() && Collected(nodeSet[..], acc) && j == |acc|
      requires ENTRY <= inst.instIdx < |nodes| && inst == At(inst.instIdx)
      modifies nodeSet
      ensures var r := Q.AddToNodeSet(model.g, acc, inst.instIdx);
              Collected(nodeSet[..], r) && j' == |r|
      decreases inst.instIdx + 1
    {
      if inst.instIdx == ENTRY {
        return j;
      }
      assert Represents(inst.instIdx);
      ghost var idx, v := inst.instIdx, model.g[inst.instIdx];
      ghost var acc0 := acc;
      j' := j;
      var known := ExistsInSet(nodeSet, inst.instIdx, acc);
      if !known {
        C.RoomForMissing(acc, |nodes|, idx);
        nodeSet[j'] := inst;
        j' := j' + 1;
        acc0 := acc + [idx];
      }
      j' := AddToNodeSet(nodeSet, inst.dep1, j', acc0);
      if inst.dep1.instIdx != inst.dep2.instIdx {
        j' := AddToNodeSet(nodeSet, inst.dep2, j', Q.AddToNodeSet(model.g, acc0, v.dep1));
      }
    }

    /** The nodes in the order freeProgCtx frees them. */
    method FreeProgCtx() returns (freed: seq<InstNode?>)
      requires Valid()
      ensures Collected(freed, Q.Collect(model.g, model.slots, 0, []))
    {
      var nodeSet := new InstNode?[numInsts](_ => null);
      var j: nat := 0;
      ghost var order: seq<int> := [];
      for i := 0 to deps.Length
        invariant Collected(nodeSet[..], order) && j == |order|
        invariant Q.Collect(model.g, model.slots, i, order) == Q.Collect(model.g, model.slots, 0, [])
      {
        if deps[i] == null {
          break;
        }
        j := AddToNodeSet(nodeSet, deps[i], j, order);
        order := Q.AddToNodeSet(model.g, order, model.slots[i]);
      }
      freed := nodeSet[..];
    }
  }

  /** Building the tree of a whole trace. */
  method AnalyzeProg(latency: seq<nat>, trace: seq<M.Inst>, capacity: nat) returns (tree: DepTree)
    requires capacity >= 1 && M.Decodes(latency, trace) && M.Analyze(latency, trace, capacity).Some?
    ensures fresh(tree) && tree.Valid()
    ensures tree.model == M.Analyze(latency, trace, capacity).value
  {
    tree := new DepTree(capacity);
    for i := 0 to |trace|
      invariant fresh(tree) && fresh(tree.deps) && tree.Valid()
      invariant M.Analyze(latency, trace[..i], capacity).Some?
      invariant tree.model == M.Analyze(latency, trace[..i], capacity).value
    {
      M.AnalyzeStep(latency, trace, capacity, i);
      tree.AnalyzeNext(trace[i], latency[trace[i].opcode]);
    }
    assert trace[..|trace|] == trace;
  }
}
