/** Smoothing a list of timecodes: runs of nearly equal frame durations are
    replaced by their average (src/main.cpp). */
module TimecodeGroups {
  import opened Wrappers
  import opened TimeBend
  import opened FrameTimes

  // ---- Splitting into groups ----

  function Concat(groups: seq<seq<int>>): seq<int> {
    if groups == [] then [] else Concat(groups[..|groups| - 1]) + groups[|groups| - 1]
  }

  /** All elements lie within some `[n, n + 1]`. */
  predicate Narrow(g: seq<int>) {
    forall i, j :: 0 <= i < |g| && 0 <= j < |g| ==> g[i] <= g[j] + 1
  }

  /** A division of a list into narrow groups of neighbours. */
  ghost predicate IsSplit(xs: seq<int>, groups: seq<seq<int>>) {
    Concat(groups) == xs && forall k :: 0 <= k < |groups| ==> groups[k] != [] && Narrow(groups[k])
  }

  /** No group could have taken the first element of the next one as well. */
  predicate Greedy(groups: seq<seq<int>>) {
    forall k {:trigger Full(groups, k)} :: 1 <= k < |groups| ==> Full(groups, k)
  }

  predicate Full(groups: seq<seq<int>>, k: nat)
    requires 1 <= k < |groups|
  {
    groups[k] != [] ==> !Narrow(groups[k - 1] + [groups[k][0]])
  }

  /** Where the first `k` groups end. */
  function End(groups: seq<seq<int>>, k: nat): nat
    requires k <= |groups|
  {
    |Concat(groups[..k])|
  }

  lemma ConcatSnoc(groups: seq<seq<int>>, g: seq<int>)
    ensures Concat(groups + [g]) == Concat(groups) + g
  {
    assert (groups + [g])[..|groups|] == groups;
  }

  /** A group is the stretch of the list between the end of the groups before
      it and its own. */
  lemma {:induction false} GroupAt(groups: seq<seq<int>>, k: nat)
    requires k < |groups|
    ensures End(groups, k) + |groups[k]| == End(groups, k + 1) <= |Concat(groups)|
    ensures Concat(groups)[End(groups, k)..End(groups, k + 1)] == groups[k]
    decreases |groups|
  {
    var m := |groups| - 1;
    assert groups[..k + 1] == groups[..k] + [groups[k]];
    ConcatSnoc(groups[..k], groups[k]);
    if k < m {
      GroupAt(groups[..m], k);
      assert groups[..m][..k] == groups[..k] && groups[..m][..k + 1] == groups[..k + 1];
      var front := Concat(groups[..m]);
      assert (front + groups[m])[End(groups, k)..End(groups, k + 1)] == front[End(groups, k)..End(groups, k + 1)];
    } else {
      assert groups[..k + 1] == groups;
    }
  }

  lemma AllGroups(groups: seq<seq<int>>)
    ensures End(groups, |groups|) == |Concat(groups)| && End(groups, 0) == 0
  {
    assert groups[..|groups|] == groups;
  }

  lemma NarrowPart(xs: seq<int>, a: nat, b: nat, a': nat, b': nat)
    requires a <= a' <= b' <= b <= |xs| && Narrow(xs[a..b])
    ensures Narrow(xs[a'..b'])
  {
    assert forall i :: 0 <= i < b' - a' ==> xs[a'..b'][i] == xs[a..b][i + (a' - a)];
  }

  /** A greedy split is never behind another one. */
  lemma {:induction false} GreedyStaysAhead(xs: seq<int>, groups: seq<seq<int>>, other: seq<seq<int>>, k: nat)
    requires IsSplit(xs, groups) && Greedy(groups) && IsSplit(xs, other) && k <= |groups| && k <= |other|
    ensures End(groups, k) >= End(other, k)
  {
    if k > 0 {
      GreedyStaysAhead(xs, groups, other, k - 1);
      GroupAt(groups, k - 1);
      GroupAt(other, k - 1);
      var a, e, b := End(groups, k - 1), End(groups, k), End(other, k);
      if k == |groups| {
        AllGroups(groups);
      } else {
        NextGroup(xs, groups, k);
        if e < b {
          NarrowPart(xs, End(other, k - 1), b, a, e + 1);
        }
      }
    }
  }

  /** With the element after it, a group of a greedy split is too wide. */
  lemma NextGroup(xs: seq<int>, groups: seq<seq<int>>, k: nat)
    requires IsSplit(xs, groups) && Greedy(groups) && 1 <= k < |groups|
    ensures End(groups, k - 1) < End(groups, k) < |xs|
    ensures !Narrow(xs[End(groups, k - 1)..End(groups, k) + 1])
  {
    GroupAt(groups, k - 1);
    GroupAt(groups, k);
    var a, e := End(groups, k - 1), End(groups, k);
    assert xs[e] == groups[k][0] by { assert groups[k][0] == xs[e..End(groups, k + 1)][0]; }
    assert xs[a..e + 1] == groups[k - 1] + [groups[k][0]];
    assert Full(groups, k);
  }

  /** A greedy split has the fewest groups. */
  lemma GreedyIsShortest(xs: seq<int>, groups: seq<seq<int>>, other: seq<seq<int>>)
    requires IsSplit(xs, groups) && Greedy(groups) && IsSplit(xs, other)
    ensures |groups| <= |other|
  {
    if |other| < |groups| {
      var k := |other|;
      GreedyStaysAhead(xs, groups, other, k);
      AllGroups(other);
      GroupAt(groups, k);
    }
  }

  /** What the bounds say about the group being filled: one value with room on
      both sides, or two neighbouring values. */
  predicate Window(g: seq<int>, low: int, high: int) {
    && g != []
    && (forall i :: 0 <= i < |g| ==> low <= g[i] <= high)
    && (if high - low == 2 then forall i :: 0 <= i < |g| ==> g[i] == low + 1
        else high - low == 1 && low in g && high in g)
  }

  lemma WindowFits(g: seq<int>, low: int, high: int, x: int)
    requires Window(g, low, high)
    ensures Narrow(g) && (Narrow(g + [x]) <==> low <= x <= high)
  {
    var h := g + [x];
    assert h[|g|] == x && h[0] == g[0];
    if high - low == 1 {
      var i :| 0 <= i < |g| && g[i] == low;
      var j :| 0 <= j < |g| && g[j] == high;
      assert h[i] == low && h[j] == high;
    }
  }

  lemma WindowNext(g: seq<int>, low: int, high: int, x: int)
    requires Window(g, low, high) && low <= x <= high
    ensures var prev := g[|g| - 1];
            if prev != x && high - low == 2 then Window(g + [x], if prev < x then prev else x, if prev < x then x else prev)
            else Window(g + [x], low, high)
  {
    var h := g + [x];
    assert h[|g|] == x && h[|g| - 1] == g[|g| - 1];
    assert forall y :: y in g ==> y in h;
  }

  /** The groups so far, with the bounds of the last. */
  ghost predicate Filling(xs: seq<int>, groups: seq<seq<int>>, low: int, high: int) {
    && IsSplit(xs, groups) && Greedy(groups)
    && (if groups == [] then low == 1 && high == 0 else Window(groups[|groups| - 1], low, high))
  }

  lemma FillingOpen(xs: seq<int>, groups: seq<seq<int>>, low: int, high: int, x: int)
    requires Filling(xs, groups, low, high) && (x < low || x > high)
    ensures Filling(xs + [x], groups + [[x]], x - 1, x + 1)
  {
    ConcatSnoc(groups, [x]);
    var groups' := groups + [[x]];
    if groups != [] {
      WindowFits(groups[|groups| - 1], low, high, x);
      assert Full(groups', |groups|);
    }
    assert forall k :: 1 <= k < |groups| ==> Full(groups', k) == Full(groups, k);
  }

  lemma FillingGrow(xs: seq<int>, groups: seq<seq<int>>, low: int, high: int, x: int, low': int, high': int)
    requires groups != [] && Filling(xs, groups, low, high) && low <= x <= high
    requires Window(groups[|groups| - 1] + [x], low', high')
    ensures Filling(xs + [x], groups[|groups| - 1 := groups[|groups| - 1] + [x]], low', high')
  {
    var m := |groups| - 1;
    var g := groups[m] + [x];
    var groups' := groups[m := g];
    assert groups' == groups[..m] + [g] && groups == groups[..m] + [groups[m]];
    ConcatSnoc(groups[..m], g);
    ConcatSnoc(groups[..m], groups[m]);
    WindowFits(groups[m], low, high, x);
    assert g[0] == groups[m][0];
    assert forall k :: 1 <= k < |groups| ==> Full(groups', k) == Full(groups, k);
  }

  /** Divides a list into the fewest possible groups of neighbours that each
      lie within some `[n, n + 1]`. */
  method GroupbyAdjacent(xs: seq<int>) returns (groups: seq<seq<int>>)
    ensures IsSplit(xs, groups)
    ensures forall other :: IsSplit(xs, other) ==> |groups| <= |other|
  {
    groups := [];
    var low, high := 1, 0;
    for i := 0 to |xs|
      invariant Filling(xs[..i], groups, low, high)
    {
      var x := xs[i];
      assert xs[..i + 1] == xs[..i] + [x];
      if x < low || x > high {
        FillingOpen(xs[..i], groups, low, high, x);
        groups := groups + [[x]];
        low, high := x - 1, x + 1;
      } else {
        var g := groups[|groups| - 1];
        var prev := g[|g| - 1];
        WindowNext(g, low, high, x);
        ghost var low0, high0 := low, high;
        if prev != x && high - low == 2 {
          low, high := if prev < x then prev else x, if prev < x then x else prev;
        }
        FillingGrow(xs[..i], groups, low0, high0, x, low, high);
        groups := groups[|groups| - 1 := g + [x]];
      }
    }
    assert xs[..|xs|] == xs;
    forall other | IsSplit(xs, other)
      ensures |groups| <= |other|
    {
      GreedyIsShortest(xs, groups, other);
    }
  }

  /** The division the program gives as its example: no division of these
      durations has fewer groups. */
  lemma DocumentedGroups(other: seq<seq<int>>)
    requires IsSplit([1, 2, 1, 1, 2, 3, 2, 3, 3, 2, 1, 1, 2], other)
    ensures IsSplit([1, 2, 1, 1, 2, 3, 2, 3, 3, 2, 1, 1, 2], [[1, 2, 1, 1, 2], [3, 2, 3, 3, 2], [1, 1, 2]])
    ensures |other| >= 3
  {
    var groups := [[1, 2, 1, 1, 2], [3, 2, 3, 3, 2], [1, 1, 2]];
    ThreeConcat(groups[0], groups[1], groups[2]);
    assert !Narrow(groups[0] + [3]) by { assert (groups[0] + [3])[0] == 1 && (groups[0] + [3])[5] == 3; }
    assert !Narrow(groups[1] + [1]) by { assert (groups[1] + [1])[0] == 3 && (groups[1] + [1])[5] == 1; }
    assert Full(groups, 1) && Full(groups, 2);
    GreedyIsShortest([1, 2, 1, 1, 2, 3, 2, 3, 3, 2, 1, 1, 2], groups, other);
  }

  lemma ThreeConcat(a: seq<int>, b: seq<int>, c: seq<int>)
    ensures Concat([a, b, c]) == a + b + c
  {
    var groups := [a, b, c];
    assert groups[..2] == [a, b] && groups[..2][..1] == [a] && groups[..2][..1][..0] == [];
    assert Concat(groups[..2][..1]) == a;
  }
}
