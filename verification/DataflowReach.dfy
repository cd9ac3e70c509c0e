/** Reachability in the graph, and what the searches over it return. */
module DataflowReach {
  import opened Bits
  import opened DisconnectLoop
  import opened DataflowModel
  import opened DataflowQueries

  ghost predicate Reaches(g: seq<Node>, root: int, x: nat)
    requires WellFormed(g) && ENTRY <= root < |g|
    decreases root + 1
  {
    root != ENTRY && (root == x || Reaches(g, g[root].dep1, x) || Reaches(g, g[root].dep2, x))
  }

  lemma {:induction false} ReachesBack(g: seq<Node>, root: int, j: nat, x: nat)
    requires WellFormed(g) && ENTRY <= root < |g| && j < |g| && Reaches(g, root, j)
    requires g[j].dep1 == x || g[j].dep2 == x
    ensures Reaches(g, root, x)
    decreases root + 1
  {
    if root != j {
      if Reaches(g, g[root].dep1, j) {
        ReachesBack(g, g[root].dep1, j, x);
      } else {
        ReachesBack(g, g[root].dep2, j, x);
      }
    }
  }

  /** Instruction i has no later instruction depending on it. */
  ghost predicate Undepended(g: seq<Node>, i: int) {
    forall j :: 0 <= j < |g| ==> g[j].dep1 != i && g[j].dep2 != i
  }

  /** The exit node's entries: the entry node of an empty program, else exactly
      the instructions that no later one depends on. */
  ghost predicate FrontierExact(t: Tree) {
    && (ENTRY in t.slots <==> |t.g| == 0)
    && (forall i :: 0 <= i < |t.g| ==> (i in t.slots <==> Undepended(t.g, i)))
  }

  lemma {:induction false} FrontierReaches(t: Tree, i: nat) returns (k: nat)
    requires TreeOk(t) && FrontierExact(t) && i < |t.g|
    ensures k < FirstNull(t.slots) && Reaches(t.g, t.slots[k], i)
    decreases |t.g| - i
  {
    if i in t.slots {
      k :| 0 <= k < |t.slots| && t.slots[k] == i;
    } else {
      var j :| 0 <= j < |t.g| && (t.g[j].dep1 == i || t.g[j].dep2 == i);
      k := FrontierReaches(t, j);
      ReachesBack(t.g, t.slots[k], j, i);
    }
  }

  // ---------- find_by_idx ----------

  lemma {:induction false} FindByIdxNodeIs(g: seq<Node>, root: int, idx: nat)
    requires WellFormed(g) && ENTRY <= root < |g|
    ensures FindByIdxNode(g, root, idx) != ENTRY <==> Reaches(g, root, idx)
    decreases root + 1
  {
    if root != ENTRY {
      FindByIdxNodeIs(g, g[root].dep1, idx);
      FindByIdxNodeIs(g, g[root].dep2, idx);
    }
  }

  lemma {:induction false} FindByIdxFrom(t: Tree, from: nat, k: nat, idx: nat)
    requires TreeOk(t) && from <= k < FirstNull(t.slots) && Reaches(t.g, t.slots[k], idx)
    ensures FindByIdx(t.g, t.slots, from, idx) == idx
    decreases k - from
  {
    FindByIdxNodeIs(t.g, t.slots[from], idx);
    if from < k {
      FindByIdxFrom(t, from + 1, k, idx);
    }
  }

  /** Every instruction is found, and nothing else is. */
  lemma FindByIdxExact(t: Tree, idx: nat)
    requires TreeOk(t) && FrontierExact(t)
    ensures FindByIdx(t.g, t.slots, 0, idx) == if idx < |t.g| then idx else ENTRY
  {
    if idx < |t.g| {
      var k := FrontierReaches(t, idx);
      FindByIdxFrom(t, 0, k, idx);
    }
  }

  // ---------- find_node ----------

  /** The latest writer of reg among the first k instructions of the graph. */
  ghost predicate IsLatestWriter(g: seq<Node>, reg: Word, w: int) {
    && ENTRY <= w < |g|
    && (w != ENTRY ==> g[w].writeReg == reg)
    && (forall j :: w < j < |g| ==> g[j].writeReg != reg)
  }

  lemma {:induction false} FindNodeBelow(g: seq<Node>, root: int, reg: Word, w: int)
    requires WellFormed(g) && ENTRY <= root < |g| && IsLatestWriter(g, reg, w)
    ensures FindNode(g, root, reg) <= w
    decreases root + 1
  {
    if root != ENTRY && g[root].writeReg != reg {
      FindNodeBelow(g, g[root].dep1, reg, w);
      FindNodeBelow(g, g[root].dep2, reg, w);
    }
  }

  lemma {:induction false} FindNodeReaches(g: seq<Node>, root: int, reg: Word, w: nat)
    requires WellFormed(g) && ENTRY <= root < |g| && IsLatestWriter(g, reg, w)
    requires Reaches(g, root, w)
    ensures FindNode(g, root, reg) == w
    decreases root + 1
  {
    if root != w {
      ReachesBelow(g, root, w);
      FindNodeBelow(g, g[root].dep1, reg, w);
      FindNodeBelow(g, g[root].dep2, reg, w);
      if Reaches(g, g[root].dep1, w) {
        FindNodeReaches(g, g[root].dep1, reg, w);
      } else {
        FindNodeReaches(g, g[root].dep2, reg, w);
      }
    }
  }

  lemma {:induction false} ReachesBelow(g: seq<Node>, root: int, x: nat)
    requires WellFormed(g) && ENTRY <= root < |g| && Reaches(g, root, x)
    ensures x <= root
    decreases root + 1
  {
    if root != x {
      if Reaches(g, g[root].dep1, x) {
        ReachesBelow(g, g[root].dep1, x);
      } else {
        ReachesBelow(g, g[root].dep2, x);
      }
    }
  }

  lemma {:induction false} SearchBelow(t: Tree, from: nat, reg: Word, recent: int, w: int)
    requires TreeOk(t) && from <= |t.slots| && IsLatestWriter(t.g, reg, w) && ENTRY <= recent <= w
    ensures Search(t.g, t.slots, from, reg, recent) <= w
    decreases |t.slots| - from
  {
    if from < |t.slots| && t.slots[from] != NULL {
      FindNodeBelow(t.g, t.slots[from], reg, w);
      var dep := FindNode(t.g, t.slots[from], reg);
      SearchBelow(t, from + 1, reg, MoreRecent(dep, recent), w);
    }
  }

  lemma {:induction false} SearchReaches(t: Tree, from: nat, reg: Word, recent: int, w: nat, k: nat)
    requires TreeOk(t) && IsLatestWriter(t.g, reg, w) && ENTRY <= recent <= w
    requires from <= k < FirstNull(t.slots) && Reaches(t.g, t.slots[k], w)
    ensures Search(t.g, t.slots, from, reg, recent) == w
    decreases |t.slots| - from
  {
    FindNodeBelow(t.g, t.slots[from], reg, w);
    var dep := FindNode(t.g, t.slots[from], reg);
    var recent' := MoreRecent(dep, recent);
    if from == k {
      FindNodeReaches(t.g, t.slots[k], reg, w);
      SearchBelow(t, from + 1, reg, recent', w);
    } else {
      SearchReaches(t, from + 1, reg, recent', w, k);
    }
  }

  /** The search from the exit node finds the latest writer. */
  lemma SearchFindsLatest(t: Tree, reg: Word, w: int)
    requires TreeOk(t) && FrontierExact(t) && IsLatestWriter(t.g, reg, w)
    ensures Search(t.g, t.slots, 0, reg, ENTRY) == w
  {
    if w == ENTRY {
      SearchBelow(t, 0, reg, ENTRY, w);
    } else {
      var k := FrontierReaches(t, w);
      SearchReaches(t, 0, reg, ENTRY, w, k);
    }
  }
}
