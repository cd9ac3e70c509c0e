/** The collection of freeProgCtx: it never writes past the node set, and it
    gathers every node of the graph exactly once. */
module DataflowCollect {
  import opened Bits
  import opened DisconnectLoop
  import opened DataflowModel
  import opened DataflowQueries
  import opened DataflowReach
  import opened DataflowTheorems

  /** Distinct node indices of a graph of n nodes. */
  ghost predicate NodeSet(acc: seq<int>, n: nat) {
    && (forall k :: 0 <= k < |acc| ==> 0 <= acc[k] < n)
    && (forall j, k :: 0 <= j < k < |acc| ==> acc[j] != acc[k])
  }

  lemma {:induction false} Pigeonhole(acc: seq<int>, n: nat)
    requires NodeSet(acc, n)
    ensures |acc| <= n
    ensures |acc| == n ==> forall x :: 0 <= x < n ==> x in acc
    decreases n
  {
    if |acc| > 0 {
      assert 0 <= acc[0] < n;
      if n - 1 in acc {
        var k :| 0 <= k < |acc| && acc[k] == n - 1;
        var rest := acc[..k] + acc[k + 1..];
        Pigeonhole(rest, n - 1);
        assert forall x :: x in rest ==> x in acc;
      } else {
        Pigeonhole(acc, n - 1);
      }
    }
  }

  /** There is a free slot whenever a node is still missing. */
  lemma RoomForMissing(acc: seq<int>, n: nat, x: nat)
    requires NodeSet(acc, n) && x < n && x !in acc
    ensures |acc| < n && NodeSet(acc + [x], n)
  {
    Pigeonhole(acc, n);
  }

  lemma {:induction false} AddToNodeSetIs(g: seq<Node>, acc: seq<int>, root: int)
    requires WellFormed(g) && ENTRY <= root < |g| && NodeSet(acc, |g|)
    ensures var r := AddToNodeSet(g, acc, root);
            && NodeSet(r, |g|) && acc <= r
            && (forall x :: 0 <= x < |g| && Reaches(g, root, x) ==> x in r)
    decreases root + 1
  {
    if root != ENTRY {
      if root !in acc {
        RoomForMissing(acc, |g|, root);
      }
      var acc0 := if root in acc then acc else acc + [root];
      AddToNodeSetIs(g, acc0, g[root].dep1);
      var acc1 := AddToNodeSet(g, acc0, g[root].dep1);
      if g[root].dep1 != g[root].dep2 {
        AddToNodeSetIs(g, acc1, g[root].dep2);
      }
      Retains(acc0, acc1);
      Retains(acc1, AddToNodeSet(g, acc, root));
      assert root in acc0;
    }
  }

  lemma Retains(a: seq<int>, b: seq<int>)
    requires a <= b
    ensures forall x :: x in a ==> x in b
  {
  }

  lemma {:induction false} CollectIs(t: Tree, k: nat, acc: seq<int>)
    requires TreeOk(t) && k <= |t.slots| && NodeSet(acc, |t.g|)
    ensures var r := Collect(t.g, t.slots, k, acc);
            && NodeSet(r, |t.g|) && acc <= r
            && (forall x, j :: k <= j < FirstNull(t.slots) && 0 <= x < |t.g| && Reaches(t.g, t.slots[j], x) ==> x in r)
    decreases |t.slots| - k
  {
    if k < |t.slots| && t.slots[k] != NULL {
      AddToNodeSetIs(t.g, acc, t.slots[k]);
      var acc' := AddToNodeSet(t.g, acc, t.slots[k]);
      CollectIs(t, k + 1, acc');
      Retains(acc', Collect(t.g, t.slots, k, acc));
    }
  }

  /** freeProgCtx collects every node exactly once. */
  lemma CollectsEachNodeOnce(latency: seq<nat>, trace: seq<Inst>, capacity: nat)
    requires capacity >= 1 && Decodes(latency, trace) && Analyze(latency, trace, capacity).Some?
    ensures var t := Analyze(latency, trace, capacity).value;
            var r := Collect(t.g, t.slots, 0, []);
            && |r| == |trace|
            && (forall i :: 0 <= i < |trace| ==> i in r && multiset(r)[i] == 1)
  {
    AnalyzeIsFaithful(latency, trace, capacity);
    var t := Analyze(latency, trace, capacity).value;
    var r := Collect(t.g, t.slots, 0, []);
    CollectIs(t, 0, []);
    forall i | 0 <= i < |trace|
      ensures i in r
    {
      var k := FrontierReaches(t, i);
    }
    Pigeonhole(r, |trace|);
    Covers(r, |trace|);
    forall i | 0 <= i < |trace|
      ensures multiset(r)[i] == 1
    {
      OnceEach(r, i);
    }
  }

  lemma {:induction false} Covers(acc: seq<int>, n: nat)
    requires forall x :: 0 <= x < n ==> x in acc
    ensures |acc| >= n
    decreases n
  {
    if n > 0 {
      assert n - 1 in acc;
      var k :| 0 <= k < |acc| && acc[k] == n - 1;
      var rest := acc[..k] + acc[k + 1..];
      forall x | 0 <= x < n - 1
        ensures x in rest
      {
        assert x in acc;
        var j :| 0 <= j < |acc| && acc[j] == x;
        assert rest[if j < k then j else j - 1] == x;
      }
      Covers(rest, n - 1);
    }
  }

  lemma OnceEach(acc: seq<int>, x: int)
    requires forall j, k :: 0 <= j < k < |acc| ==> acc[j] != acc[k]
    requires x in acc
    ensures multiset(acc)[x] == 1
  {
    var k :| 0 <= k < |acc| && acc[k] == x;
    assert acc == acc[..k] + [x] + acc[k + 1..];
    assert x !in multiset(acc[..k]) && x !in multiset(acc[k + 1..]);
  }
}
