/** The loop of add_inst that drops the new instruction's dependencies from
    the exit node, run on the whole slot array one iteration at a time: what it
    leaves when it exits, and exactly when it exits. */
module DisconnectLoop {
  const NULL := -2 // an empty slot of exit->deps

  /** Emptying slot i and shifting the tail down by one. The last slot is
      never refilled, so unless it is slot i itself it keeps its value. */
  function Shift<T>(a: seq<T>, i: nat, empty: T): (r: seq<T>)
    requires i < |a|
    ensures |r| == |a|
  {
    if i == |a| - 1 then a[..i] + [empty]
    else a[..i] + a[i + 1..] + [a[|a| - 1]]
  }

  function RemoveSlot(a: seq<int>, i: nat): (r: seq<int>)
    requires i < |a|
    ensures |r| == |a|
  {
    Shift(a, i, NULL)
  }

  datatype Loop = Running(a: seq<int>, i: nat) | Exited(a: seq<int>)

  /** One iteration, loop test included. */
  function Iteration(a: seq<int>, i: nat, d1: int, d2: int): (r: Loop)
    ensures |r.a| == |a|
  {
    if i >= |a| || a[i] == NULL then Exited(a)
    else
      var a1 := if a[i] == d1 then RemoveSlot(a, i) else a;
      if a1[i] == NULL then Exited(a1)
      else
        var a2 := if a1[i] == d2 then RemoveSlot(a1, i) else a1;
        if a[i] == d1 || a1[i] == d2 then Running(a2, i) else Running(a2, i + 1)
  }

  function Next(s: Loop, d1: int, d2: int): Loop {
    if s.Exited? then s else Iteration(s.a, s.i, d1, d2)
  }

  function Iterate(s: Loop, d1: int, d2: int, n: nat): (r: Loop)
    ensures |r.a| == |s.a|
  {
    if n == 0 then s else Next(Iterate(s, d1, d2, n - 1), d1, d2)
  }

  /** The loop exits after some number of iterations. */
  ghost predicate Exits(slots: seq<int>, d1: int, d2: int) {
    exists n: nat :: Iterate(Running(slots, 0), d1, d2, n).Exited?
  }

  /** The array the loop leaves. */
  ghost function Disconnected(slots: seq<int>, d1: int, d2: int): (r: seq<int>)
    requires Exits(slots, d1, d2)
    ensures |r| == |slots|
  {
    var n: nat :| Iterate(Running(slots, 0), d1, d2, n).Exited?;
    Iterate(Running(slots, 0), d1, d2, n).a
  }

  /** The first exit decides what the loop leaves. */
  lemma {:induction false} ExitIsFinal(s: Loop, d1: int, d2: int, n: nat, m: nat)
    requires n <= m && Iterate(s, d1, d2, n).Exited?
    ensures Iterate(s, d1, d2, m) == Iterate(s, d1, d2, n)
    decreases m - n
  {
    if n < m {
      ExitIsFinal(s, d1, d2, n + 1, m);
    }
  }

  lemma DisconnectedAt(slots: seq<int>, d1: int, d2: int, n: nat)
    requires Iterate(Running(slots, 0), d1, d2, n).Exited?
    ensures Exits(slots, d1, d2) && Disconnected(slots, d1, d2) == Iterate(Running(slots, 0), d1, d2, n).a
  {
    var m: nat :| Iterate(Running(slots, 0), d1, d2, m).Exited?
                  && Disconnected(slots, d1, d2) == Iterate(Running(slots, 0), d1, d2, m).a;
    if n <= m {
      ExitIsFinal(Running(slots, 0), d1, d2, n, m);
    } else {
      ExitIsFinal(Running(slots, 0), d1, d2, m, n);
    }
  }

  /** r is where the loop is after n iterations from the start. */
  ghost predicate After(slots: seq<int>, d1: int, d2: int, n: nat, r: Loop) {
    Iterate(Running(slots, 0), d1, d2, n) == r
  }

  /** state is reached from the start and will exit within the given steps. */
  ghost predicate OnTrack(slots: seq<int>, d1: int, d2: int, state: Loop, steps: nat) {
    exists n: nat, m: nat, a :: After(slots, d1, d2, n, state) && After(slots, d1, d2, m, Exited(a)) && m == n + steps
  }

  lemma StartOnTrack(slots: seq<int>, d1: int, d2: int) returns (steps: nat)
    requires Exits(slots, d1, d2)
    ensures OnTrack(slots, d1, d2, Running(slots, 0), steps)
  {
    steps :| Iterate(Running(slots, 0), d1, d2, steps).Exited?;
    assert After(slots, d1, d2, 0, Running(slots, 0));
    assert After(slots, d1, d2, steps, Exited(Iterate(Running(slots, 0), d1, d2, steps).a));
  }

  lemma NextOnTrack(slots: seq<int>, d1: int, d2: int, state: Loop, steps: nat)
    requires OnTrack(slots, d1, d2, state, steps) && state.Running?
    ensures steps > 0 && OnTrack(slots, d1, d2, Next(state, d1, d2), steps - 1)
  {
    var n: nat, m: nat, a :| After(slots, d1, d2, n, state) && After(slots, d1, d2, m, Exited(a)) && m == n + steps;
    assert After(slots, d1, d2, n + 1, Next(state, d1, d2));
  }

  lemma ExitedOnTrack(slots: seq<int>, d1: int, d2: int, state: Loop, steps: nat)
    requires OnTrack(slots, d1, d2, state, steps) && state.Exited?
    ensures Exits(slots, d1, d2) && Disconnected(slots, d1, d2) == state.a
  {
    var n: nat, m: nat, a :| After(slots, d1, d2, n, state) && After(slots, d1, d2, m, Exited(a)) && m == n + steps;
    DisconnectedAt(slots, d1, d2, n);
  }

  // ---------- arrays in use ----------

  function FirstNullFrom(a: seq<int>, i: nat): (r: nat)
    requires i <= |a|
    ensures i <= r <= |a|
    ensures forall k :: i <= k < r ==> a[k] != NULL
    ensures r < |a| ==> a[r] == NULL
    decreases |a| - i
  {
    if i == |a| || a[i] == NULL then i else FirstNullFrom(a, i + 1)
  }

  /** The number of slots in use: those before the first empty one. */
  function FirstNull(a: seq<int>): (r: nat)
    ensures r <= |a|
    ensures forall k :: 0 <= k < r ==> a[k] != NULL
    ensures r < |a| ==> a[r] == NULL
  {
    FirstNullFrom(a, 0)
  }

  /** The slots in use form a gap-free prefix. */
  ghost predicate Packed(a: seq<int>) {
    forall k :: FirstNull(a) <= k < |a| ==> a[k] == NULL
  }

  ghost predicate Full(a: seq<int>) {
    FirstNull(a) == |a|
  }

  /** The entries in use are in increasing order (with repetitions allowed). */
  ghost predicate Sorted(a: seq<int>) {
    forall j, k :: 0 <= j < k < FirstNull(a) ==> a[j] <= a[k]
  }

  /** The same without repetitions. */
  ghost predicate StrictlySorted(a: seq<int>) {
    forall j, k :: 0 <= j < k < FirstNull(a) ==> a[j] < a[k]
  }

  lemma FirstNullIs(a: seq<int>, m: nat)
    requires m <= |a|
    requires forall k :: 0 <= k < m ==> a[k] != NULL
    requires m < |a| ==> a[m] == NULL
    ensures FirstNull(a) == m
  {
  }

  // ---------- removing one slot ----------

  /** Entry k of a shifted sequence. */
  function ShiftedEntry<T>(a: seq<T>, i: nat, empty: T, k: nat): T
    requires i < |a| && k < |a|
  {
    if k < i then a[k] else if k < |a| - 1 then a[k + 1] else if i == |a| - 1 then empty else a[k]
  }

  lemma ShiftAt<T>(a: seq<T>, i: nat, empty: T, k: nat)
    requires i < |a| && k < |a|
    ensures Shift(a, i, empty)[k] == ShiftedEntry(a, i, empty, k)
  {
  }

  /** A sequence with the entries of a shift is that shift. */
  lemma IsShift<T>(a: seq<T>, i: nat, empty: T, r: seq<T>)
    requires i < |a| == |r|
    requires forall k :: 0 <= k < |a| ==> r[k] == ShiftedEntry(a, i, empty, k)
    ensures r == Shift(a, i, empty)
  {
    forall k | 0 <= k < |a|
      ensures r[k] == Shift(a, i, empty)[k]
    {
      ShiftAt(a, i, empty, k);
    }
  }

  lemma RemoveSlotAt(a: seq<int>, i: nat, k: nat)
    requires i < |a| && k < |a|
    ensures RemoveSlot(a, i)[k] ==
            if k < i then a[k] else if k < |a| - 1 then a[k + 1] else if i == |a| - 1 then NULL else a[k]
  {
    ShiftAt(a, i, NULL, k);
  }

  lemma RemoveSlotCount(a: seq<int>, i: nat)
    requires Packed(a) && i < FirstNull(a)
    ensures Packed(RemoveSlot(a, i))
    ensures FirstNull(RemoveSlot(a, i)) ==
            if Full(a) && i < |a| - 1 then FirstNull(a) else FirstNull(a) - 1
  {
    var b, m := RemoveSlot(a, i), FirstNull(a);
    forall k | 0 <= k < |a|
      ensures b[k] == if k < i then a[k] else if k < |a| - 1 then a[k + 1] else if i == |a| - 1 then NULL else a[k]
    {
      RemoveSlotAt(a, i, k);
    }
    FirstNullIs(b, if m == |a| && i < |a| - 1 then m else m - 1);
  }

  lemma RemoveSlotSorted(a: seq<int>, i: nat)
    requires Packed(a) && Sorted(a) && i < FirstNull(a)
    ensures Sorted(RemoveSlot(a, i))
  {
    var b := RemoveSlot(a, i);
    RemoveSlotCount(a, i);
    forall j, k | 0 <= j < k < FirstNull(b)
      ensures b[j] <= b[k]
    {
      RemoveSlotAt(a, i, j);
      RemoveSlotAt(a, i, k);
    }
  }

  lemma RemoveSlotMembers(a: seq<int>, i: nat)
    requires i < |a|
    ensures forall x :: x in RemoveSlot(a, i) ==> x == NULL || x in a
    ensures forall x :: x in a ==> x == a[i] || x in RemoveSlot(a, i)
  {
    var b := RemoveSlot(a, i);
    forall x | x in a && x != a[i]
      ensures x in b
    {
      var k :| 0 <= k < |a| && a[k] == x;
      RemoveSlotAt(a, i, if k < i then k else k - 1);
    }
  }

  // ---------- what the loop keeps ----------

  ghost predicate Clean(a: seq<int>, n: nat, d1: int, d2: int)
    requires n <= |a|
  {
    forall k :: 0 <= k < n ==> a[k] != d1 && a[k] != d2
  }

  /** a is an array the loop can have made out of orig. */
  ghost predicate Kept(orig: seq<int>, a: seq<int>, d1: int, d2: int) {
    && |a| == |orig| && Packed(a) && Sorted(a) && FirstNull(a) <= FirstNull(orig)
    && (forall x :: x in a ==> x == NULL || x in orig)
    && (forall x :: x in orig ==> x == d1 || x == d2 || x in a)
  }

  lemma RemovalKeeps(orig: seq<int>, a: seq<int>, i: nat, d1: int, d2: int)
    requires Kept(orig, a, d1, d2) && i < FirstNull(a) && Clean(a, i, d1, d2)
    requires a[i] == d1 || a[i] == d2
    ensures Kept(orig, RemoveSlot(a, i), d1, d2)
    ensures i <= FirstNull(RemoveSlot(a, i)) && Clean(RemoveSlot(a, i), i, d1, d2)
  {
    RemoveSlotCount(a, i);
    RemoveSlotSorted(a, i);
    RemoveSlotMembers(a, i);
    forall k | 0 <= k < i
      ensures RemoveSlot(a, i)[k] == a[k]
    {
      RemoveSlotAt(a, i, k);
    }
  }

  lemma IterationKeeps(orig: seq<int>, a: seq<int>, i: nat, d1: int, d2: int)
    requires Kept(orig, a, d1, d2) && i <= FirstNull(a) && Clean(a, i, d1, d2)
    ensures var r := Iteration(a, i, d1, d2);
            && Kept(orig, r.a, d1, d2)
            && (if r.Running? then r.i <= FirstNull(r.a) && Clean(r.a, r.i, d1, d2)
                else Clean(r.a, FirstNull(r.a), d1, d2))
  {
    if i < |a| && a[i] != NULL {
      var a1 := if a[i] == d1 then RemoveSlot(a, i) else a;
      if a[i] == d1 {
        RemovalKeeps(orig, a, i, d1, d2);
      }
      if a1[i] != NULL && a1[i] == d2 {
        RemovalKeeps(orig, a1, i, d1, d2);
      }
    }
  }

  lemma {:induction false} LoopKeeps(orig: seq<int>, d1: int, d2: int, n: nat)
    requires Packed(orig) && Sorted(orig)
    ensures var r := Iterate(Running(orig, 0), d1, d2, n);
            && Kept(orig, r.a, d1, d2)
            && (if r.Running? then r.i <= FirstNull(r.a) && Clean(r.a, r.i, d1, d2)
                else Clean(r.a, FirstNull(r.a), d1, d2))
  {
    if n > 0 {
      LoopKeeps(orig, d1, d2, n - 1);
      var s := Iterate(Running(orig, 0), d1, d2, n - 1);
      if s.Running? {
        IterationKeeps(orig, s.a, s.i, d1, d2);
      }
    }
  }

  /** When the loop exits it has removed the dependencies, every copy of them,
      and nothing else. */
  lemma DisconnectedIs(slots: seq<int>, d1: int, d2: int)
    requires Packed(slots) && Sorted(slots) && d1 != NULL && d2 != NULL
    requires Exits(slots, d1, d2)
    ensures var r := Disconnected(slots, d1, d2);
            && Packed(r) && Sorted(r) && FirstNull(r) <= FirstNull(slots)
            && (forall x :: x != NULL ==> (x in r <==> x in slots && x != d1 && x != d2))
  {
    var n: nat :| Iterate(Running(slots, 0), d1, d2, n).Exited?
                  && Disconnected(slots, d1, d2) == Iterate(Running(slots, 0), d1, d2, n).a;
    LoopKeeps(slots, d1, d2, n);
    var r := Disconnected(slots, d1, d2);
    forall x | x in r && x != NULL
      ensures x != d1 && x != d2
    {
      var k :| 0 <= k < |r| && r[k] == x;
      assert k < FirstNull(r);
    }
  }

  // ---------- when the loop exits ----------

  /** Some slot from i on, other than the last, holds a dependency. */
  ghost predicate MatchBefore(a: seq<int>, i: nat, d1: int, d2: int) {
    exists k :: i <= k < |a| - 1 && (a[k] == d1 || a[k] == d2)
  }

  ghost predicate LastMatches(a: seq<int>, d1: int, d2: int) {
    |a| > 0 && (a[|a| - 1] == d1 || a[|a| - 1] == d2)
  }

  /** The number of slots from i on that hold a dependency. */
  ghost function Matches(a: seq<int>, i: nat, d1: int, d2: int): nat
    requires i <= |a|
    decreases |a| - i
  {
    if i == |a| then 0
    else (if a[i] == d1 || a[i] == d2 then 1 else 0) + Matches(a, i + 1, d1, d2)
  }

  lemma {:induction false} RemovalShifts(a: seq<int>, i: nat, j: nat, d1: int, d2: int)
    requires i <= j < |a| && i < |a| && !LastMatches(a, d1, d2) && d1 != NULL && d2 != NULL
    ensures Matches(RemoveSlot(a, i), j, d1, d2) == Matches(a, j + 1, d1, d2)
    decreases |a| - j
  {
    RemoveSlotAt(a, i, j);
    if j < |a| - 1 {
      RemovalShifts(a, i, j + 1, d1, d2);
    }
  }

  /** A state from which the loop will exit. */
  ghost predicate Safe(a: seq<int>, i: nat, d1: int, d2: int) {
    LastMatches(a, d1, d2) ==> !MatchBefore(a, i, d1, d2)
  }

  lemma RemovalProgress(a: seq<int>, i: nat, d1: int, d2: int)
    requires i < |a| && d1 != NULL && d2 != NULL && Safe(a, i, d1, d2)
    requires a[i] == d1 || a[i] == d2
    ensures var b := RemoveSlot(a, i);
            Safe(b, i, d1, d2) && Matches(b, i, d1, d2) < Matches(a, i, d1, d2)
  {
    if LastMatches(a, d1, d2) {
      assert i == |a| - 1;
    } else {
      RemovalShifts(a, i, i, d1, d2);
      RemoveSlotAt(a, i, |a| - 1);
    }
  }

  lemma IterationProgress(a: seq<int>, i: nat, d1: int, d2: int)
    requires i <= |a| && d1 != NULL && d2 != NULL && Safe(a, i, d1, d2)
    ensures var r := Iteration(a, i, d1, d2);
            r.Running? ==> r.i <= |a| && Safe(r.a, r.i, d1, d2)
                           && Matches(r.a, r.i, d1, d2) + |a| - r.i < Matches(a, i, d1, d2) + |a| - i
  {
    if i < |a| && a[i] != NULL {
      var a1 := if a[i] == d1 then RemoveSlot(a, i) else a;
      if a[i] == d1 {
        RemovalProgress(a, i, d1, d2);
      }
      if a1[i] != NULL && a1[i] == d2 {
        RemovalProgress(a1, i, d1, d2);
      }
    }
  }

  lemma {:induction false} IterateFromNext(s: Loop, d1: int, d2: int, n: nat)
    ensures Iterate(s, d1, d2, n + 1) == Iterate(Next(s, d1, d2), d1, d2, n)
  {
    if n > 0 {
      IterateFromNext(s, d1, d2, n - 1);
    }
  }

  lemma {:induction false} SafeExits(a: seq<int>, i: nat, d1: int, d2: int) returns (n: nat)
    requires i <= |a| && d1 != NULL && d2 != NULL && Safe(a, i, d1, d2)
    ensures Iterate(Running(a, i), d1, d2, n).Exited?
    decreases Matches(a, i, d1, d2) + |a| - i
  {
    IterationProgress(a, i, d1, d2);
    var r := Iteration(a, i, d1, d2);
    n := 0;
    if r.Running? {
      n := SafeExits(r.a, r.i, d1, d2);
    }
    IterateFromNext(Running(a, i), d1, d2, n);
    n := n + 1;
  }

  /** A state the loop never leaves: no slot is empty, the last one holds a
      dependency, and so does an earlier one still to be visited. */
  ghost predicate Stuck(s: Loop, d1: int, d2: int) {
    s.Running? && NULL !in s.a && LastMatches(s.a, d1, d2) && MatchBefore(s.a, s.i, d1, d2)
  }

  lemma RemovalStaysStuck(a: seq<int>, i: nat, d1: int, d2: int)
    requires Stuck(Running(a, i), d1, d2) && i < |a| && (a[i] == d1 || a[i] == d2)
    ensures Stuck(Running(RemoveSlot(a, i), i), d1, d2)
  {
    var b := RemoveSlot(a, i);
    assert i < |a| - 1;
    RemoveSlotAt(a, i, |a| - 1);
    RemoveSlotAt(a, i, |a| - 2);
    RemoveSlotMembers(a, i);
    assert b[|a| - 2] == a[|a| - 1];
    forall k | 0 <= k < |b|
      ensures b[k] != NULL
    {
      RemoveSlotAt(a, i, k);
    }
  }

  lemma StaysStuck(s: Loop, d1: int, d2: int)
    requires Stuck(s, d1, d2)
    ensures Stuck(Next(s, d1, d2), d1, d2)
  {
    var k :| s.i <= k < |s.a| - 1 && (s.a[k] == d1 || s.a[k] == d2);
    var a1 := if s.a[s.i] == d1 then RemoveSlot(s.a, s.i) else s.a;
    if s.a[s.i] == d1 {
      RemovalStaysStuck(s.a, s.i, d1, d2);
    }
    if a1[s.i] == d2 {
      RemovalStaysStuck(a1, s.i, d1, d2);
    }
  }

  lemma {:induction false} StuckForever(s: Loop, d1: int, d2: int, n: nat)
    requires Stuck(s, d1, d2)
    ensures Stuck(Iterate(s, d1, d2, n), d1, d2)
  {
    if n > 0 {
      StuckForever(s, d1, d2, n - 1);
      StaysStuck(Iterate(s, d1, d2, n - 1), d1, d2);
    }
  }

  /** Two dependencies sit in a full array, one of them in the last slot. */
  ghost predicate Jams(slots: seq<int>, d1: int, d2: int) {
    Full(slots) && LastMatches(slots, d1, d2) && MatchBefore(slots, 0, d1, d2)
  }

  /** The loop exits if and only if the array is not jammed. */
  lemma ExitsUnlessJammed(slots: seq<int>, d1: int, d2: int)
    requires Packed(slots) && d1 != NULL && d2 != NULL
    ensures Exits(slots, d1, d2) <==> !Jams(slots, d1, d2)
  {
    if Jams(slots, d1, d2) {
      forall n: nat
        ensures !Iterate(Running(slots, 0), d1, d2, n).Exited?
      {
        StuckForever(Running(slots, 0), d1, d2, n);
      }
    } else {
      var n := SafeExits(slots, 0, d1, d2);
    }
  }

  // ---------- when the loop leaves a repeated entry ----------

  /** No entry is repeated and no removal will leave the last slot behind. */
  ghost predicate Tight(a: seq<int>, d1: int, d2: int) {
    Packed(a) && StrictlySorted(a) && (Full(a) ==> !MatchBefore(a, 0, d1, d2))
  }

  lemma RemovalStaysTight(a: seq<int>, i: nat, d1: int, d2: int)
    requires Tight(a, d1, d2) && i < FirstNull(a) && (a[i] == d1 || a[i] == d2)
    ensures Tight(RemoveSlot(a, i), d1, d2)
    ensures FirstNull(RemoveSlot(a, i)) < |a|
  {
    var b := RemoveSlot(a, i);
    assert i < |a| - 1 ==> !Full(a);
    RemoveSlotCount(a, i);
    forall j, k | 0 <= j < k < FirstNull(b)
      ensures b[j] < b[k]
    {
      RemoveSlotAt(a, i, j);
      RemoveSlotAt(a, i, k);
    }
  }

  lemma {:induction false} StaysTight(slots: seq<int>, d1: int, d2: int, n: nat)
    requires Tight(slots, d1, d2)
    ensures Tight(Iterate(Running(slots, 0), d1, d2, n).a, d1, d2)
  {
    if n > 0 {
      StaysTight(slots, d1, d2, n - 1);
      var s := Iterate(Running(slots, 0), d1, d2, n - 1);
      if s.Running? && s.i < |s.a| && s.a[s.i] != NULL {
        var a1 := if s.a[s.i] == d1 then RemoveSlot(s.a, s.i) else s.a;
        assert s.i < FirstNull(s.a);
        if s.a[s.i] == d1 {
          RemovalStaysTight(s.a, s.i, d1, d2);
        }
        if a1[s.i] != NULL && a1[s.i] == d2 {
          assert s.i < FirstNull(a1);
          RemovalStaysTight(a1, s.i, d1, d2);
        }
      }
    }
  }

  /** The last slot has been left behind, or is about to be. */
  ghost predicate Spills(s: Loop, d1: int, d2: int) {
    && NULL !in s.a && |s.a| >= 2 && !LastMatches(s.a, d1, d2)
    && (s.a[|s.a| - 1] == s.a[|s.a| - 2] || (s.Running? && MatchBefore(s.a, s.i, d1, d2)))
  }

  lemma RemovalSpills(a: seq<int>, i: nat, d1: int, d2: int)
    requires NULL !in a && |a| >= 2 && !LastMatches(a, d1, d2) && i < |a|
    requires a[i] == d1 || a[i] == d2
    ensures Spills(Exited(RemoveSlot(a, i)), d1, d2)
  {
    RemoveSlotAt(a, i, |a| - 1);
    RemoveSlotAt(a, i, |a| - 2);
    forall k | 0 <= k < |a|
      ensures RemoveSlot(a, i)[k] != NULL
    {
      RemoveSlotAt(a, i, k);
    }
  }

  lemma SpillingStep(s: Loop, d1: int, d2: int)
    requires Spills(s, d1, d2)
    ensures Spills(Next(s, d1, d2), d1, d2)
  {
    if s.Running? && s.i < |s.a| {
      if s.a[s.i] == d1 {
        RemovalSpills(s.a, s.i, d1, d2);
        var a1 := RemoveSlot(s.a, s.i);
        assert NULL !in a1;
        if a1[s.i] == d2 {
          RemovalSpills(a1, s.i, d1, d2);
        }
      } else if s.a[s.i] == d2 {
        RemovalSpills(s.a, s.i, d1, d2);
      }
    }
  }

  lemma {:induction false} KeepsSpilling(slots: seq<int>, d1: int, d2: int, n: nat)
    requires Spills(Running(slots, 0), d1, d2)
    ensures Spills(Iterate(Running(slots, 0), d1, d2, n), d1, d2)
  {
    if n > 0 {
      KeepsSpilling(slots, d1, d2, n - 1);
      SpillingStep(Iterate(Running(slots, 0), d1, d2, n - 1), d1, d2);
    }
  }

  /** When the loop exits, the entries it leaves are free of repetitions if and
      only if it did not have to remove one from the middle of a full array. */
  lemma RepeatsWhenFull(slots: seq<int>, d1: int, d2: int)
    requires Packed(slots) && StrictlySorted(slots) && d1 != NULL && d2 != NULL
    requires Exits(slots, d1, d2)
    ensures StrictlySorted(Disconnected(slots, d1, d2))
            <==> !(Full(slots) && MatchBefore(slots, 0, d1, d2))
  {
    var n: nat :| Iterate(Running(slots, 0), d1, d2, n).Exited?
                  && Disconnected(slots, d1, d2) == Iterate(Running(slots, 0), d1, d2, n).a;
    if Full(slots) && MatchBefore(slots, 0, d1, d2) {
      ExitsUnlessJammed(slots, d1, d2);
      KeepsSpilling(slots, d1, d2, n);
      var r := Disconnected(slots, d1, d2);
      assert FirstNull(r) == |r|;
      assert r[|r| - 2] == r[|r| - 1];
    } else {
      StaysTight(slots, d1, d2, n);
    }
  }
}
