/** The queries on a finished graph: lookup by index, dependencies, depths, and
    the collection of the nodes to free. */
module DataflowQueries {
  import opened Bits
  import opened DisconnectLoop
  import opened DataflowModel

  const NO_REG := -10 // the write register of the entry node

  // ---------- find_by_idx ----------

  ghost function FindByIdxNode(g: seq<Node>, root: int, idx: nat): (r: int)
    requires WellFormed(g) && ENTRY <= root < |g|
    ensures r == ENTRY || r == idx < |g|
    decreases root + 1
  {
    if root == ENTRY then ENTRY
    else if root == idx then root
    else
      var inst1 := FindByIdxNode(g, g[root].dep1, idx);
      var inst2 := if g[root].dep1 != g[root].dep2 then FindByIdxNode(g, g[root].dep2, idx) else ENTRY;
      if inst1 != ENTRY then inst1
      else if inst2 != ENTRY then inst2
      else ENTRY
  }

  /** The lookup loop from slot k on. */
  ghost function FindByIdx(g: seq<Node>, slots: seq<int>, k: nat, idx: nat): (r: int)
    requires WellFormed(g) && InRange(g, slots) && k <= |slots|
    ensures r == ENTRY || r == idx < |g|
    decreases |slots| - k
  {
    if k == |slots| || slots[k] == NULL then ENTRY
    else
      var inst := FindByIdxNode(g, slots[k], idx);
      if inst != ENTRY then inst else FindByIdx(g, slots, k + 1, idx)
  }

  // ---------- getInstDepth, getInstDeps, getProgDepth ----------

  ghost function WriteReg(g: seq<Node>, i: int): Word
    requires ENTRY <= i < |g|
  {
    if i == ENTRY then U32(NO_REG) else g[i].writeReg
  }

  ghost function GetInstDepth(t: Tree, idx: nat): int
    requires TreeOk(t)
  {
    var inst := FindByIdx(t.g, t.slots, 0, idx);
    if inst != ENTRY then t.g[inst].depth else -1
  }

  /** The decoding of the stored pair. */
  ghost function Decode(g: seq<Node>, i: nat): (int, int)
    requires WellFormed(g) && i < |g|
  {
    var v := g[i];
    if v.dep1 != v.dep2 then (v.dep1, v.dep2)
    else if v.read1 == v.read2 then (v.dep1, v.dep2)
    else if WriteReg(g, v.dep1) == v.read1 then (v.dep1, ENTRY)
    else if WriteReg(g, v.dep2) == v.read2 then (ENTRY, v.dep2)
    else (ENTRY, ENTRY)
  }

  /** None when the index is rejected. */
  ghost function GetInstDeps(t: Tree, idx: nat): Option<(int, int)>
    requires TreeOk(t)
  {
    var inst := FindByIdx(t.g, t.slots, 0, idx);
    if inst != ENTRY then Some(Decode(t.g, inst)) else None
  }

  // ---------- add_to_node_set ----------

  ghost function AddToNodeSet(g: seq<Node>, acc: seq<int>, root: int): (r: seq<int>)
    requires WellFormed(g) && ENTRY <= root < |g|
    decreases root + 1
  {
    if root == ENTRY then acc
    else
      var acc0 := if root in acc then acc else acc + [root];
      var acc1 := AddToNodeSet(g, acc0, g[root].dep1);
      if g[root].dep1 != g[root].dep2 then AddToNodeSet(g, acc1, g[root].dep2) else acc1
  }

  /** The collection loop of freeProgCtx from slot k on. */
  ghost function Collect(g: seq<Node>, slots: seq<int>, k: nat, acc: seq<int>): (r: seq<int>)
    requires WellFormed(g) && InRange(g, slots) && k <= |slots|
    decreases |slots| - k
  {
    if k == |slots| || slots[k] == NULL then acc
    else Collect(g, slots, k + 1, AddToNodeSet(g, acc, slots[k]))
  }
}
