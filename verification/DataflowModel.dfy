/** The dependency graph of the dataflow calculator, on values: a node is named
    by its `inst_idx`, the entry node is `ENTRY`, and an empty slot of
    `exit->deps` is `NULL`. */
module DataflowModel {
  import opened Bits
  import opened DisconnectLoop

  const ENTRY := -1
  const EXIT_START_SIZE := 100 // the initial length of exit->deps

  /** One traced instruction, as the caller supplies it. */
  datatype Inst = Inst(opcode: nat, dst: int, src1: Word, src2: Word)

  /** A node of the graph; `dep1` and `dep2` are indices or `ENTRY`. */
  datatype Node = Node(cycles: nat, writeReg: Word, read1: Word, read2: Word,
                       depth: nat, dep1: int, dep2: int)

  /** `slots` is the whole array `exit->deps`, empty slots included. */
  datatype Tree = Tree(g: seq<Node>, slots: seq<int>, maxDepth: nat)

  datatype Option<T> = None | Some(value: T)

  /** Edges go to earlier instructions, and both or neither go to the entry. */
  ghost predicate WellFormed(g: seq<Node>) {
    forall i :: 0 <= i < |g| ==>
      && ENTRY <= g[i].dep1 < i && ENTRY <= g[i].dep2 < i
      && (g[i].dep1 == ENTRY <==> g[i].dep2 == ENTRY)
  }

  ghost predicate InRange(g: seq<Node>, slots: seq<int>) {
    forall k :: 0 <= k < |slots| ==> slots[k] == NULL || ENTRY <= slots[k] < |g|
  }

  ghost predicate TreeOk(t: Tree) {
    && WellFormed(t.g) && InRange(t.g, t.slots)
    && |t.slots| >= 1 && Packed(t.slots) && Sorted(t.slots)
  }

  // ---------- find_node and the search from the exit node ----------

  ghost function FindNode(g: seq<Node>, root: int, reg: Word): (r: int)
    requires WellFormed(g) && ENTRY <= root < |g|
    ensures ENTRY <= r <= root
    decreases root + 1
  {
    if root == ENTRY then ENTRY
    else if g[root].writeReg == reg then root
    else
      var first := FindNode(g, g[root].dep1, reg);
      var second := FindNode(g, g[root].dep2, reg);
      if first != ENTRY && second == ENTRY then first
      else if second != ENTRY && first == ENTRY then second
      else if second != ENTRY && first != ENTRY then
        if first > second then first else second
      else ENTRY
  }

  /** The later of two search results. */
  function MoreRecent(dep: int, recent: int): int {
    if dep != ENTRY && (recent == ENTRY || dep > recent) then dep else recent
  }

  /** The search loop of add_inst from slot k on, `recent` being the best match so far. */
  ghost function Search(g: seq<Node>, slots: seq<int>, k: nat, reg: Word, recent: int): (r: int)
    requires WellFormed(g) && InRange(g, slots) && k <= |slots|
    requires ENTRY <= recent < |g|
    ensures recent <= r < |g|
    decreases |slots| - k
  {
    if k == |slots| || slots[k] == NULL then recent
    else
      var dep := FindNode(g, slots[k], reg);
      Search(g, slots, k + 1, reg, MoreRecent(dep, recent))
  }

  // ---------- add_inst ----------

  /** The pair stored for two search results: a single dependency is stored twice. */
  function Encode(r1: int, r2: int): (int, int) {
    if r1 == ENTRY && r2 == ENTRY then (ENTRY, ENTRY)
    else if r1 != ENTRY && r2 == ENTRY then (r1, r1)
    else if r2 != ENTRY && r1 == ENTRY then (r2, r2)
    else (r1, r2)
  }

  /** The new node: its dependencies and its depth. */
  ghost function Resolve(t: Tree, inst: Inst, cycles: nat): (v: Node)
    requires TreeOk(t)
    ensures ENTRY <= v.dep1 < |t.g| && ENTRY <= v.dep2 < |t.g|
    ensures v.dep1 == ENTRY <==> v.dep2 == ENTRY
  {
    var r1 := Search(t.g, t.slots, 0, inst.src1, ENTRY);
    var r2 := Search(t.g, t.slots, 0, inst.src2, ENTRY);
    var (d1, d2) := Encode(r1, r2);
    var depth := if d1 == ENTRY then 0
                 else Max(t.g[d1].depth + t.g[d1].cycles, t.g[d2].depth + t.g[d2].cycles);
    Node(cycles, U32(inst.dst), inst.src1, inst.src2, depth, d1, d2)
  }

  function Nulls(n: nat): seq<int> {
    seq(n, _ => NULL)
  }

  /** Storing a new instruction in the first empty slot, or doubling the array. */
  function Insert(slots: seq<int>, x: int): (r: seq<int>)
    requires |slots| >= 1
  {
    var p := FirstNull(slots);
    if p < |slots| then slots[p := x] else slots + [x] + Nulls(|slots| - 1)
  }

  lemma InsertFacts(slots: seq<int>, x: int)
    requires |slots| >= 1 && Packed(slots) && Sorted(slots) && x != NULL
    requires forall k :: 0 <= k < FirstNull(slots) ==> slots[k] < x
    ensures var r := Insert(slots, x);
            && |r| == (if Full(slots) then 2 * |slots| else |slots|)
            && FirstNull(r) == FirstNull(slots) + 1
            && r[..FirstNull(r)] == slots[..FirstNull(slots)] + [x]
            && Packed(r) && Sorted(r)
            && (StrictlySorted(r) <==> StrictlySorted(slots))
            && (forall y :: y != NULL ==> (y in r <==> y in slots || y == x))
  {
    var r, p := Insert(slots, x), FirstNull(slots);
    FirstNullIs(r, p + 1);
    forall y | y in slots && y != NULL
      ensures y in r
    {
      var k :| 0 <= k < |slots| && slots[k] == y;
      assert r[k] == y;
    }
    assert r[p] == x;
    forall j, k | 0 <= j < k < p && StrictlySorted(r)
      ensures slots[j] < slots[k]
    {
      assert r[j] == slots[j] && r[k] == slots[k];
    }
  }

  /** The tree with a node added, if the disconnecting loop exits. */
  ghost function Attach(t: Tree, v: Node): (r: Tree)
    requires TreeOk(t) && Exits(t.slots, v.dep1, v.dep2)
  {
    Tree(t.g + [v], Insert(Disconnected(t.slots, v.dep1, v.dep2), |t.g|), Max(t.maxDepth, v.depth + v.cycles))
  }

  /** What attaching does to the slots. */
  lemma AttachSlots(t: Tree, v: Node)
    requires TreeOk(t) && Exits(t.slots, v.dep1, v.dep2) && v.dep1 != NULL && v.dep2 != NULL
    ensures var rest, r := Disconnected(t.slots, v.dep1, v.dep2), Attach(t, v).slots;
            && Packed(r) && Sorted(r) && (StrictlySorted(r) <==> StrictlySorted(rest))
            && FirstNull(r) == FirstNull(rest) + 1 && FirstNull(rest) <= FirstNull(t.slots)
            && |r| == (if Full(rest) then 2 * |t.slots| else |t.slots|)
            && r[FirstNull(rest)] == |t.g| && (forall k :: 0 <= k < FirstNull(rest) ==> r[k] < |t.g|)
            && (forall x :: x != NULL ==> (x in rest <==> x in t.slots && x != v.dep1 && x != v.dep2))
            && (forall x :: x != NULL ==> (x in r <==> x in rest || x == |t.g|))
  {
    var rest := Disconnected(t.slots, v.dep1, v.dep2);
    DisconnectedIs(t.slots, v.dep1, v.dep2);
    forall k | 0 <= k < FirstNull(rest)
      ensures rest[k] < |t.g|
    {
      assert rest[k] in rest && rest[k] in t.slots;
    }
    InsertFacts(rest, |t.g|);
    var r, p := Insert(rest, |t.g|), FirstNull(rest);
    assert r[..p + 1] == rest[..p] + [|t.g|];
    assert r[p] == r[..p + 1][p];
    assert forall k :: 0 <= k < p ==> r[k] == r[..p + 1][k];
  }

  lemma AttachOk(t: Tree, v: Node)
    requires TreeOk(t) && Exits(t.slots, v.dep1, v.dep2)
    requires ENTRY <= v.dep1 < |t.g| && ENTRY <= v.dep2 < |t.g| && (v.dep1 == ENTRY <==> v.dep2 == ENTRY)
    ensures TreeOk(Attach(t, v))
  {
    AttachSlots(t, v);
    var r := Attach(t, v);
    forall k | 0 <= k < |r.slots| && r.slots[k] != NULL
      ensures ENTRY <= r.slots[k] < |r.g|
    {
      assert r.slots[k] in r.slots;
    }
  }

  /** None when the disconnecting loop never exits. */
  ghost function AddInst(t: Tree, inst: Inst, cycles: nat): (r: Option<Tree>)
    requires TreeOk(t)
    ensures r.Some? ==> TreeOk(r.value)
  {
    var v := Resolve(t, inst, cycles);
    if !Exits(t.slots, v.dep1, v.dep2) then None
    else
      AttachOk(t, v);
      Some(Attach(t, v))
  }

  /** add_inst, part by part. */
  lemma AddInstParts(t: Tree, inst: Inst, cycles: nat)
    requires TreeOk(t) && AddInst(t, inst, cycles).Some?
    ensures var v, r := Resolve(t, inst, cycles), AddInst(t, inst, cycles).value;
            && Exits(t.slots, v.dep1, v.dep2) && WellFormed(t.g + [v])
            && r.g == t.g + [v]
            && r.slots == Insert(Disconnected(t.slots, v.dep1, v.dep2), |t.g|)
            && r.maxDepth == Max(t.maxDepth, v.depth + cycles)
  {
  }

  // ---------- analyzeProg ----------

  /** The tree before the first instruction; capacity is EXIT_START_SIZE. */
  function Init(capacity: nat): (t: Tree)
    requires capacity >= 1
  {
    Tree([], [ENTRY] + Nulls(capacity - 1), 0)
  }

  ghost predicate Decodes(latency: seq<nat>, trace: seq<Inst>) {
    forall i :: 0 <= i < |trace| ==> trace[i].opcode < |latency|
  }

  /** The tree of a whole trace; None when some add_inst never returns. */
  ghost function Analyze(latency: seq<nat>, trace: seq<Inst>, capacity: nat): (r: Option<Tree>)
    requires capacity >= 1 && Decodes(latency, trace)
    ensures r.Some? ==> TreeOk(r.value)
  {
    if |trace| == 0 then
      InitOk(capacity);
      Some(Init(capacity))
    else
      var last := trace[|trace| - 1];
      match Analyze(latency, trace[..|trace| - 1], capacity)
      case None => None
      case Some(t) => AddInst(t, last, latency[last.opcode])
  }

  lemma InitOk(capacity: nat)
    requires capacity >= 1
    ensures TreeOk(Init(capacity)) && FirstNull(Init(capacity).slots) == 1
  {
    FirstNullIs(Init(capacity).slots, 1);
  }

  lemma {:induction false} AnalyzePrefix(latency: seq<nat>, trace: seq<Inst>, capacity: nat, n: nat)
    requires capacity >= 1 && Decodes(latency, trace) && n <= |trace|
    requires Analyze(latency, trace, capacity).Some?
    ensures Analyze(latency, trace[..n], capacity).Some?
    decreases |trace|
  {
    if n < |trace| {
      var prefix := trace[..|trace| - 1];
      AnalyzePrefix(latency, prefix, capacity, n);
      assert prefix[..n] == trace[..n];
    } else {
      assert trace[..n] == trace;
    }
  }

  lemma AnalyzeStep(latency: seq<nat>, trace: seq<Inst>, capacity: nat, n: nat)
    requires capacity >= 1 && Decodes(latency, trace) && n < |trace|
    requires Analyze(latency, trace, capacity).Some?
    ensures Analyze(latency, trace[..n], capacity).Some? && Analyze(latency, trace[..n + 1], capacity).Some?
    ensures Analyze(latency, trace[..n + 1], capacity) ==
            AddInst(Analyze(latency, trace[..n], capacity).value, trace[n], latency[trace[n].opcode])
  {
    AnalyzePrefix(latency, trace, capacity, n);
    AnalyzePrefix(latency, trace, capacity, n + 1);
    assert trace[..n + 1][..n] == trace[..n];
  }
}
