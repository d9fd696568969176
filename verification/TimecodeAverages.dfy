/** Reading a list of timecodes, averaging it and bringing it to a time scale
    (parseTimecodeV2, averageTimecode and rescaleTimecode in src/main.cpp). */
module TimecodeAverages {
  import Numbers
  import opened Wrappers
  import opened RunTables
  import opened TimeBend
  import opened FrameRates
  import opened FrameTimes
  import opened TimecodeGroups
  import opened TimecodeScales

  /** Conversion to an integer, towards zero. */
  function ToInt(x: real): int {
    if x >= 0.0 then x.Floor else -((-x).Floor)
  }

  function RoundInt(x: real): (n: int)
    ensures x >= -0.5 ==> n as real - 0.5 <= x < n as real + 0.5
  {
    ToInt(x + 0.5)
  }

  predicate Increasing(ts: seq<real>) {
    forall i {:trigger Rises(ts, i)} :: 1 <= i < |ts| ==> Rises(ts, i)
  }

  predicate Rises(ts: seq<real>, i: nat)
    requires 1 <= i < |ts|
  {
    ts[i - 1] < ts[i]
  }

  /** One more timecode. */
  lemma IncreasingNext(ts: seq<real>, t: real)
    ensures Increasing(ts + [t]) <==> Increasing(ts) && (ts != [] ==> ts[|ts| - 1] < t)
  {
    var r := ts + [t];
    assert forall i :: 1 <= i < |ts| ==> Rises(r, i) == Rises(ts, i);
    assert ts != [] ==> Rises(r, |ts|) == (ts[|ts| - 1] < t);
  }

  /** Duration of a frame from the rounded time `prev` on. */
  function FrameDelta(prev: int, t: real): (d: int)
    ensures t >= prev as real - 0.5 ==> (prev + d) as real - 0.5 <= t < (prev + d) as real + 0.5
  {
    ToInt(t - prev as real + 0.5)
  }

  /** Frame durations in whole units, each counted from the rounded time of
      the frame before. */
  function FrameDeltas(tc: seq<real>): (ds: seq<int>)
    requires tc != []
    ensures |ds| == |tc| - 1
    ensures forall i :: 0 <= i < |ds| ==> ds[i] == FrameDelta(RoundInt(tc[i]), tc[i + 1])
  {
    seq(|tc| - 1, i requires 0 <= i < |tc| - 1 => FrameDelta(RoundInt(tc[i]), tc[i + 1]))
  }

  function Total(g: seq<int>): int {
    Sums(g)[|g|]
  }

  function Count(as_: seq<(nat, real)>): nat {
    if as_ == [] then 0 else Count(as_[..|as_| - 1]) + as_[|as_| - 1].0
  }

  /** Timecodes from 0 on, with so many frames of each duration. */
  function Spread(as_: seq<(nat, real)>): (ts: seq<real>)
    ensures |ts| == Count(as_) + 1
  {
    if as_ == [] then [0.0]
    else
      var m := |as_| - 1;
      Extend(Spread(as_[..m]), as_[m].1, as_[m].0)
  }

  // ---- Time is conserved ----

  /** The step to the `i`th timecode keeps the rounded time: conversion cuts
      off in the same direction on both sides, or nothing is cut off. */
  predicate Kept(tc: seq<real>, i: nat)
    requires 1 <= i < |tc|
  {
    tc[i] >= -0.5 || Whole(tc[i] + 0.5) || tc[i] + 0.5 < RoundInt(tc[i - 1]) as real
  }

  /** Units lost in the steps up to the `n`th timecode. */
  function LostUnits(tc: seq<real>, n: nat): (k: nat)
    requires n < |tc|
    ensures k == 0 <==> AllKept(tc, n)
  {
    if n == 0 then 0 else LostUnits(tc, n - 1) + if Kept(tc, n) then 0 else 1
  }

  /** A duration and the rounded time before it add up to the rounded time
      after it, or to one unit less, exactly if the step is not kept. */
  lemma DeltaStep(tc: seq<real>, i: nat)
    requires 1 <= i < |tc| && tc[i - 1] < tc[i]
    ensures RoundInt(tc[i - 1]) + FrameDelta(RoundInt(tc[i - 1]), tc[i]) == RoundInt(tc[i]) - if Kept(tc, i) then 0 else 1
  {
    CutStep(tc[i - 1] + 0.5, tc[i] + 0.5);
  }

  lemma CutStep(x: real, y: real)
    requires x < y
    ensures ToInt(x) + ToInt(y - ToInt(x) as real)
         == ToInt(y) - if y >= 0.0 || Whole(y) || y < ToInt(x) as real then 0 else 1
  {
    var r := ToInt(x);
    ShiftFloor(y, -r);
    ShiftFloor(-y, r);
    Mirror(y);
  }

  lemma ShiftFloor(x: real, n: int)
    ensures (x + n as real).Floor == x.Floor + n
  {}

  lemma Mirror(x: real)
    ensures (-x).Floor == if Whole(x) then -(x.Floor) else -(x.Floor) - 1
  {}

  /** The durations add up to the differences of the rounded times, less what
      is lost on the way. */
  lemma DeltasTelescope(tc: seq<real>)
    requires tc != [] && Increasing(tc)
    ensures forall i :: 0 <= i < |tc| ==> Sums(FrameDeltas(tc))[i] == RoundInt(tc[i]) - RoundInt(tc[0]) - LostUnits(tc, i)
  {
    var us, ds := Telescoped(tc), FrameDeltas(tc);
    forall i | 0 <= i < |ds|
      ensures us[i + 1] == us[i] + ds[i]
    {
      TelescopeStep(tc, i);
    }
    SumsUnique(us, ds);
  }

  /** Differences of the rounded times from the first, less what is lost. */
  function Telescoped(tc: seq<real>): (us: seq<int>)
    ensures |us| == |tc| && forall i :: 0 <= i < |tc| ==> us[i] == RoundInt(tc[i]) - RoundInt(tc[0]) - LostUnits(tc, i)
  {
    seq(|tc|, i requires 0 <= i < |tc| => RoundInt(tc[i]) - RoundInt(tc[0]) - LostUnits(tc, i))
  }

  lemma TelescopeStep(tc: seq<real>, i: nat)
    requires i + 1 < |tc| && Increasing(tc)
    ensures Telescoped(tc)[i + 1] == Telescoped(tc)[i] + FrameDeltas(tc)[i]
  {
    assert Rises(tc, i + 1);
    DeltaStep(tc, i + 1);
  }

  lemma {:induction false} SumsConcat(a: seq<int>, b: seq<int>)
    ensures forall i :: 0 <= i <= |a| ==> Sums(a + b)[i] == Sums(a)[i]
    ensures forall i :: 0 <= i <= |b| ==> Sums(a + b)[|a| + i] == Sums(a)[|a|] + Sums(b)[i]
  {
    if b == [] {
      assert a + b == a;
    } else {
      var m := |b| - 1;
      assert a + b == (a + b[..m]) + [b[m]] && b == b[..m] + [b[m]];
      SumsConcat(a, b[..m]);
      SumsSnoc(a + b[..m], b[m]);
      SumsSnoc(b[..m], b[m]);
    }
  }

  lemma QuotientTimes(n: nat, t: real)
    requires n > 0
    ensures Times(n, t / n as real) == t
  {
    var q := t / n as real;
    TimesIsProduct(n, q);
    assert q * n as real == t;
  }

  /** The first `k` durations end where they add up to. */
  lemma {:induction false} SpreadAt(as_: seq<(nat, real)>, k: nat)
    requires k <= |as_|
    ensures Count(as_[..k]) <= Count(as_) && Spread(as_)[Count(as_[..k])] == Span(as_[..k])
    decreases |as_|
  {
    if as_ == [] {
      assert as_[..k] == [];
    } else {
      var m := |as_| - 1;
      var front := as_[..m];
      var os := Spread(front);
      if k <= m {
        SpreadAt(front, k);
        assert front[..k] == as_[..k];
        assert Spread(as_)[..|os|][Count(as_[..k])] == os[Count(as_[..k])];
      } else {
        SpreadAt(front, m);
        assert front[..m] == front && as_[..k] == as_;
      }
    }
  }

  /** Each entry lasts as long as the group it stands for. */
  predicate Means(as_: seq<(nat, real)>, groups: seq<seq<int>>) {
    && |as_| == |groups|
    && forall k {:trigger as_[k]} :: 0 <= k < |as_| ==> as_[k].0 == |groups[k]| > 0 && Times(as_[k].0, as_[k].1) == Total(groups[k]) as real
  }

  /** The averages take the same time as the frames they stand for. */
  lemma {:induction false} MeansSpan(as_: seq<(nat, real)>, groups: seq<seq<int>>)
    requires Means(as_, groups)
    ensures Count(as_) == |Concat(groups)| && Span(as_) == Total(Concat(groups)) as real
  {
    if groups != [] {
      var m := |groups| - 1;
      MeansPrefix(as_, groups, m);
      MeansSpan(as_[..m], groups[..m]);
      SumsConcat(Concat(groups[..m]), groups[m]);
      assert as_[m].0 == |groups[m]|;
    }
  }

  lemma {:induction false} ConcatPrefix(groups: seq<seq<int>>, k: nat)
    requires k <= |groups|
    ensures Concat(groups[..k]) <= Concat(groups)
    decreases |groups|
  {
    if k == |groups| {
      assert groups[..k] == groups;
    } else {
      var m := |groups| - 1;
      ConcatPrefix(groups[..m], k);
      assert groups[..m][..k] == groups[..k];
    }
  }

  lemma MeansPrefix(as_: seq<(nat, real)>, groups: seq<seq<int>>, k: nat)
    requires Means(as_, groups) && k <= |groups|
    ensures Means(as_[..k], groups[..k])
  {
    forall i | 0 <= i < k
      ensures as_[..k][i].0 == |groups[..k][i]| > 0 && Times(as_[..k][i].0, as_[..k][i].1) == Total(groups[..k][i]) as real
    {
      assert as_[..k][i] == as_[i] && groups[..k][i] == groups[i];
    }
  }

  lemma TotalAt(groups: seq<seq<int>>, k: nat)
    requires k <= |groups|
    ensures End(groups, k) <= |Concat(groups)|
    ensures Total(Concat(groups[..k])) == Sums(Concat(groups))[End(groups, k)]
  {
    ConcatPrefix(groups, k);
    var front, all := Concat(groups[..k]), Concat(groups);
    assert all == front + all[|front|..];
    SumsConcat(front, all[|front|..]);
  }

  /** At the end of every group the averaged time is the sum of the frame
      durations so far. */
  lemma SpreadAtEnd(as_: seq<(nat, real)>, groups: seq<seq<int>>, k: nat)
    requires Means(as_, groups) && k <= |groups|
    ensures End(groups, k) <= |Concat(groups)| == Count(as_)
    ensures Spread(as_)[End(groups, k)] == Sums(Concat(groups))[End(groups, k)] as real
  {
    SpreadAt(as_, k);
    MeansPrefix(as_, groups, k);
    MeansSpan(as_[..k], groups[..k]);
    MeansSpan(as_, groups);
    TotalAt(groups, k);
  }

  /** At the end of every group the new timecode is the old one, rounded and
      counted from the first, less the units lost up to there: it is exactly
      that one if and only if all steps up to there are kept. */
  lemma BoundariesConserved(tc: seq<real>, groups: seq<seq<int>>, as_: seq<(nat, real)>, k: nat)
    requires tc != [] && Increasing(tc)
    requires Concat(groups) == FrameDeltas(tc) && Means(as_, groups) && k <= |groups|
    ensures End(groups, k) < |tc| == |Spread(as_)|
    ensures var e := End(groups, k);
            && Spread(as_)[e] == (RoundInt(tc[e]) - RoundInt(tc[0]) - LostUnits(tc, e)) as real
            && (Spread(as_)[e] == (RoundInt(tc[e]) - RoundInt(tc[0])) as real <==> AllKept(tc, e))
  {
    SpreadAtEnd(as_, groups, k);
    var e := End(groups, k);
    BoundaryAt(tc, e, Spread(as_)[e]);
  }

  /** Every step up to the `n`th timecode is kept. */
  predicate AllKept(tc: seq<real>, n: nat)
    requires n < |tc|
  {
    forall i {:trigger Kept(tc, i)} :: 1 <= i <= n ==> Kept(tc, i)
  }

  lemma BoundaryAt(tc: seq<real>, e: nat, t: real)
    requires e < |tc| && Increasing(tc) && t == Sums(FrameDeltas(tc))[e] as real
    ensures t == (RoundInt(tc[e]) - RoundInt(tc[0]) - LostUnits(tc, e)) as real
    ensures t == (RoundInt(tc[e]) - RoundInt(tc[0])) as real <==> AllKept(tc, e)
  {
    DeltasTelescope(tc);
    LessIff(RoundInt(tc[e]) - RoundInt(tc[0]), LostUnits(tc, e));
  }

  lemma LessIff(a: int, lost: nat)
    ensures (a - lost) as real == a as real <==> lost == 0
  {}

  /** Timecodes that start above -3/2 keep every step. */
  lemma NearZeroIsKept(tc: seq<real>, i: nat)
    requires Increasing(tc) && 1 <= i < |tc| && tc[0] > -1.5
    ensures Kept(tc, i)
  {
    StartsAbove(tc, i - 1);
    assert Rises(tc, i);
    var x, y := tc[i - 1] + 0.5, tc[i] + 0.5;
    if y < 0.0 {
      assert -1.0 < x < y;
      assert ToInt(x) == 0;
    }
  }

  lemma {:induction false} StartsAbove(tc: seq<real>, i: nat)
    requires Increasing(tc) && i < |tc|
    ensures tc[0] <= tc[i]
  {
    if i > 0 {
      StartsAbove(tc, i - 1);
      assert Rises(tc, i);
    }
  }

  /** Timecodes that start further below zero can lose a unit: rounding is
      towards zero. */
  lemma NegativeStartLosesTime() returns (tc: seq<real>, groups: seq<seq<int>>, as_: seq<(nat, real)>)
    ensures tc != [] && Increasing(tc) && tc[0] == -1.5
    ensures Concat(groups) == FrameDeltas(tc) && |groups| == 1 && Means(as_, groups)
    ensures |Spread(as_)| == |tc| == 2
    ensures Spread(as_)[1] != (RoundInt(tc[1]) - RoundInt(tc[0])) as real
  {
    tc := LosingStart();
    groups, as_ := SingleFrame(0, 0.0);
  }

  lemma SingleFrame(d: int, average: real) returns (groups: seq<seq<int>>, as_: seq<(nat, real)>)
    requires d as real == average
    ensures |groups| == 1 && Concat(groups) == [d] && Means(as_, groups)
    ensures |Spread(as_)| == 2 && Spread(as_)[1] == average
  {
    var g := [d];
    groups, as_ := [g], [(1, average)];
    ConcatSnoc([], g);
    assert groups == [] + [g] && g == [] + g;
    SumsStep(g, 0);
    assert as_[0].0 == |groups[0]|;
    assert Times(1, average) == Times(0, average) + average;
    assert as_[..0] == [];
  }

  lemma LosingStart() returns (tc: seq<real>)
    ensures |tc| == 2 && tc[0] == -1.5 && Increasing(tc)
    ensures FrameDeltas(tc) == [0] && RoundInt(tc[1]) - RoundInt(tc[0]) == 1
  {
    var a, b := -1.5, -0.6;
    LostUnit(a, b);
    tc := [a, b];
  }

  lemma LostUnit(a: real, b: real)
    requires a == -1.5 && b == -0.6
    ensures RoundInt(a) == -1 && RoundInt(b) == 0 && ToInt(b - RoundInt(a) as real + 0.5) == 0
  {
    assert (-(a + 0.5)).Floor == 1;
  }

  lemma {:induction false} TotalBounds(g: seq<int>, n: int, i: nat)
    requires i <= |g| && forall j :: 0 <= j < |g| ==> n <= g[j] <= n + 1
    ensures Times(i, n as real) <= Sums(g)[i] as real <= Times(i, (n + 1) as real)
  {
    if i > 0 {
      TotalBounds(g, n, i - 1);
      SumsStep(g, i - 1);
    }
  }

  lemma {:induction false} TimesMonotone(n: nat, x: real, y: real)
    requires n > 0
    ensures x < y <==> Times(n, x) < Times(n, y)
  {
    if n > 1 {
      TimesMonotone(n - 1, x, y);
      TimesMonotone(n - 1, y, x);
    }
  }

  /** The average of a narrow group lies in the interval its elements lie in. */
  lemma AverageWithin(g: seq<int>, average: real) returns (n: int)
    requires g != [] && Narrow(g) && Times(|g|, average) == Total(g) as real
    ensures forall j :: 0 <= j < |g| ==> n <= g[j] <= n + 1
    ensures n as real <= average <= (n + 1) as real
  {
    n := Least(g);
    TotalBounds(g, n, |g|);
    TimesMonotone(|g|, average, n as real);
    TimesMonotone(|g|, (n + 1) as real, average);
  }

  lemma {:induction false} Least(g: seq<int>) returns (n: int)
    requires g != []
    ensures n in g && forall j :: 0 <= j < |g| ==> n <= g[j]
  {
    var m := |g| - 1;
    n := g[m];
    if m > 0 {
      var front := Least(g[..m]);
      if front < n { n := front; }
    }
  }

  // ---- Order ----

  lemma {:induction false} ExtendIncreasing(os: seq<real>, delta: real, n: nat)
    requires os != [] && n > 0
    ensures Increasing(Extend(os, delta, n)) <==> Increasing(os) && delta > 0.0
  {
    var r := Extend(os, delta, n);
    if n == 1 {
      assert Extend(os, delta, 0) == os;
      IncreasingNext(os, os[|os| - 1] + delta);
    } else {
      ExtendIncreasing(os, delta, n - 1);
      var front := Extend(os, delta, n - 1);
      IncreasingNext(front, front[|front| - 1] + delta);
    }
  }

  /** The averaged timecodes increase exactly when no average is zero or less. */
  lemma {:induction false} SpreadIncreasesIff(as_: seq<(nat, real)>)
    requires forall k :: 0 <= k < |as_| ==> as_[k].0 > 0
    ensures Increasing(Spread(as_)) <==> forall k :: 0 <= k < |as_| ==> as_[k].1 > 0.0
  {
    if as_ != [] {
      var m := |as_| - 1;
      SpreadIncreasesIff(as_[..m]);
      ExtendIncreasing(Spread(as_[..m]), as_[m].1, as_[m].0);
      assert forall k :: 0 <= k < m ==> as_[..m][k] == as_[k];
    }
  }

  // ---- The options ----

  /** The timecodes on the lines of a file; comments and other lines have none. */
  function Stamps(lines: seq<Option<real>>): seq<real> {
    if lines == [] then []
    else Stamps(lines[..|lines| - 1]) + (match lines[|lines| - 1] case Some(t) => [t] case None => [])
  }

  lemma StampsNext(lines: seq<Option<real>>, t: real)
    ensures Stamps(lines + [Some(t)]) == Stamps(lines) + [t] && Stamps(lines + [None]) == Stamps(lines)
  {
    assert (lines + [Some(t)])[..|lines|] == lines && (lines + [None])[..|lines|] == lines;
    assert Stamps(lines) + [] == Stamps(lines);
  }

  /** At most `n` of them are wanted. */
  function UpTo(ts: seq<real>, n: nat): (r: seq<real>)
    ensures r <= ts && |r| <= n && (|r| == n || r == ts)
  {
    if |ts| <= n then ts else ts[..n]
  }

  /** If just the last one is missing, it continues the step before it. */
  function Completed(ts: seq<real>, n: nat): (r: seq<real>)
    ensures Increasing(ts) ==> Increasing(r)
  {
    if |ts| == n - 1 && |ts| >= 2 then
      var last := Closing(ts);
      assert Increasing(ts) ==> Rises(ts, |ts| - 1);
      IncreasingNext(ts, last);
      ts + [last]
    else ts
  }

  method Accumulate(g: seq<int>) returns (sum: int)
    ensures sum == Total(g)
  {
    sum := 0;
    for i := 0 to |g|
      invariant sum == Sums(g)[i]
    {
      SumsStep(g, i);
      sum := sum + g[i];
    }
  }

  method CalcDeltas(tc: seq<real>) returns (deltas: seq<int>)
    requires tc != []
    ensures deltas == FrameDeltas(tc)
  {
    ghost var ds := FrameDeltas(tc);
    deltas := [];
    var prev := RoundInt(tc[0]);
    for i := 1 to |tc|
      invariant prev == RoundInt(tc[i - 1]) && deltas == ds[..i - 1]
    {
      assert ds[..i] == ds[..i - 1] + [ds[i - 1]];
      var delta := FrameDelta(prev, tc[i]);
      deltas := deltas + [delta];
      prev := RoundInt(tc[i]);
    }
    assert ds[..|ds|] == ds;
  }

  method CalcAverages(groups: seq<seq<int>>) returns (averages: seq<(nat, real)>)
    requires forall k :: 0 <= k < |groups| ==> groups[k] != []
    ensures Means(averages, groups)
  {
    averages := [];
    for i := 0 to |groups|
      invariant |averages| == i
      invariant forall k {:trigger averages[k]} :: 0 <= k < i ==>
                  averages[k].0 == |groups[k]| > 0 && Times(averages[k].0, averages[k].1) == Total(groups[k]) as real
    {
      var sum := Accumulate(groups[i]);
      QuotientTimes(|groups[i]|, sum as real);
      var average := sum as real / |groups[i]| as real;
      averages := averages + [(|groups[i]|, average)];
    }
  }

  /** The averages stand for the fewest possible groups of frames whose
      durations lie within some `[n, n + 1]`. */
  ghost predicate Averaged(tc: seq<real>, groups: seq<seq<int>>, averages: seq<(nat, real)>) {
    && tc != []
    && IsSplit(FrameDeltas(tc), groups)
    && (forall other :: IsSplit(FrameDeltas(tc), other) ==> |groups| <= |other|)
    && Means(averages, groups)
  }

  class Options {
    var timecodes: seq<real>
    var averages: seq<(nat, real)>
    var timeScale: nat
    var requestedTimeScale: int
    var originalTimeScale: nat

    constructor ()
      ensures timecodes == [] && averages == [] && timeScale == 1000 && requestedTimeScale == 0
    {
      timecodes, averages := [], [];
      timeScale, requestedTimeScale, originalTimeScale := 1000, 0, 0;
    }

    /** Replaces the timecodes by averaged ones. */
    method AverageTimecode() returns (ghost groups: seq<seq<int>>)
      requires timecodes != [] && Increasing(timecodes) && averages == []
      modifies this`timecodes, this`averages
      ensures Averaged(old(timecodes), groups, averages) && timecodes == Spread(averages)
    {
      var deltas := CalcDeltas(timecodes);
      var gs := GroupbyAdjacent(deltas);
      groups := gs;
      averages := CalcAverages(gs);
      SpreadOut();
    }

    method SpreadOut()
      modifies this`timecodes
      ensures timecodes == Spread(averages)
    {
      timecodes := [0.0];
      for i := 0 to |averages|
        invariant timecodes == Spread(averages[..i])
      {
        ghost var os := timecodes;
        assert averages[..i + 1][..i] == averages[..i];
        for j := 0 to averages[i].0
          invariant timecodes == Extend(os, averages[i].1, j)
        {
          timecodes := timecodes + [timecodes[|timecodes| - 1] + averages[i].1];
        }
      }
      assert averages[..|averages|] == averages;
    }

    /** Reads at most `count` timecodes, which must increase, and averages them
        if asked to. */
    method ParseTimecodeV2(lines: seq<Option<real>>, count: nat, optimize: bool) returns (ok: bool, ghost groups: seq<seq<int>>)
      requires timecodes == [] && averages == []
      modifies this`timecodes, this`averages
      ensures var given := UpTo(Stamps(lines), count);
              && (ok <==> given != [] && Increasing(given))
              && (ok && !optimize ==> timecodes == Completed(given, count))
              && (ok && optimize ==> Averaged(Completed(given, count), groups, averages) && timecodes == Spread(averages))
    {
      groups := [];
      ok := ReadStamps(lines, count);
      if !ok || timecodes == [] {
        return false, groups;
      }
      AddLast(count);
      if optimize {
        groups := AverageTimecode();
      }
    }

    /** Brings the timecodes to the time scale asked for, to the movie's own if
        that is to be kept, or to an automatic one. `k` is the power of ten of
        an automatic factor. */
    method RescaleTimecode() returns (ghost scale: real, ghost k: int)
      requires timeScale > 0 && Increasing(timecodes)
      requires |timecodes| >= 2 && requestedTimeScale == 0 ==> Closing(timecodes) > 0.0
      modifies this`timecodes, this`timeScale
      ensures |old(timecodes)| < 2 ==> timecodes == old(timecodes) && timeScale == old(timeScale)
      ensures |old(timecodes)| >= 2 ==> Rescaled(old(timecodes), old(timeScale), scale, k)
      ensures |old(timecodes)| >= 2 && requestedTimeScale > 0 ==> timeScale == requestedTimeScale
      ensures |old(timecodes)| >= 2 && requestedTimeScale < 0 ==> timeScale == originalTimeScale
    {
      scale, k := 1.0, 0;
      if |timecodes| < 2 {
        return;
      }
      var factor := ChooseFactor();
      scale := factor;
      Stretch(factor);
      timeScale := ScaleBy(timeScale, factor);
      k := Concluded(old(timecodes), old(timeScale), factor);
    }

    method Stretch(factor: real)
      modifies this`timecodes
      ensures timecodes == Stretched(old(timecodes), factor)
    {
      ghost var us := Stretched(timecodes, factor);
      for i := 0 to |timecodes|
        invariant |timecodes| == |us|
        invariant forall j :: 0 <= j < i ==> timecodes[j] == us[j]
        invariant forall j :: i <= j < |us| ==> timecodes[j] == old(timecodes)[j]
      {
        timecodes := timecodes[i := timecodes[i] * factor];
      }
    }

    /** The factor for the scale that is asked for, kept, or automatic. */
    method ChooseFactor() returns (scale: real)
      requires |timecodes| >= 2 && timeScale > 0 && (requestedTimeScale == 0 ==> Closing(timecodes) > 0.0)
      ensures scale >= 0.0 && Factor(Closing(timecodes), timeScale, scale)
    {
      if requestedTimeScale == 0 {
        ghost var k;
        scale, k := SearchFactor(Closing(timecodes), timeScale);
        return;
      }
      QuotientCompare(Wanted() as real, timeScale as real, 0.0);
      if requestedTimeScale > 0 {
        scale := requestedTimeScale as real / timeScale as real;
      } else {
        scale := originalTimeScale as real / timeScale as real;
      }
    }

    ghost predicate Factor(duration: real, from: nat, scale: real)
      requires from > 0
      reads this`requestedTimeScale, this`originalTimeScale
    {
      if requestedTimeScale == 0 then duration > 0.0 && AutomaticFactor(duration, from, scale)
      else scale == Wanted() as real / from as real
    }

    /** The scale that is asked for, or the movie's own. */
    function Wanted(): nat
      reads this`requestedTimeScale, this`originalTimeScale
    {
      if requestedTimeScale > 0 then requestedTimeScale else originalTimeScale
    }

    /** The timecodes at their new scale. A scale that is wanted is met, and no
        time changes; at an automatic one the movie lasts at most 2^31 - 1
        units, and no time changes exactly when the power of ten allows it. */
    ghost predicate Rescaled(was: seq<real>, from: nat, scale: real, k: int)
      requires |was| >= 2
      reads this`timecodes, this`timeScale, this`requestedTimeScale, this`originalTimeScale
    {
      && timecodes == Stretched(was, scale)
      && (requestedTimeScale != 0 ==> timeScale == Wanted() && SameTimes(was, timecodes, from, timeScale))
      && (requestedTimeScale == 0 ==>
            && from > 0 && Closing(was) > 0.0 && Automatic(Closing(was), from, scale, k)
            && timeScale == ScaleBy(from, scale)
            && Closing(timecodes) <= INT_MAX as real
            && (SameTimes(was, timecodes, from, timeScale) <==> k >= 0 || from % Numbers.Pow10(-k) == 0))
    }

    lemma Concluded(was: seq<real>, from: nat, scale: real) returns (k: int)
      requires |was| >= 2 && Increasing(was) && from > 0 && scale >= 0.0
      requires Factor(Closing(was), from, scale)
      requires timecodes == Stretched(was, scale) && timeScale == ScaleBy(from, scale)
      ensures Rescaled(was, from, scale, k)
    {
      k := 0;
      if requestedTimeScale == 0 {
        k :| Automatic(Closing(was), from, scale, k);
        IncreasingIsTimed(was);
        AutomaticFits(Closing(was), from, scale, k);
        ClosingStretched(was, scale);
        AutomaticKeepsTimesIff(was, Closing(was), from, scale, k);
      } else {
        RequestedKeepsTimes(was, from, Wanted());
      }
    }

    method AddLast(count: nat)
      modifies this`timecodes
      ensures timecodes == Completed(old(timecodes), count)
      ensures old(timecodes) <= timecodes
      ensures if |old(timecodes)| + 1 == count && count >= 3
              then |timecodes| == count && timecodes[count - 1] - timecodes[count - 2] == timecodes[count - 2] - timecodes[count - 3]
              else timecodes == old(timecodes)
    {
      if |timecodes| == count - 1 && |timecodes| >= 2 {
        var last, prev := timecodes[|timecodes| - 1], timecodes[|timecodes| - 2];
        timecodes := timecodes + [last * 2.0 - prev];
      }
    }

    method ReadStamps(lines: seq<Option<real>>, count: nat) returns (ok: bool)
      requires timecodes == []
      modifies this`timecodes
      ensures ok <==> Increasing(UpTo(Stamps(lines), count))
      ensures ok ==> timecodes == UpTo(Stamps(lines), count)
    {
      var i := 0;
      while |timecodes| < count && i < |lines|
        invariant 0 <= i <= |lines| && |timecodes| <= count
        invariant timecodes == Stamps(lines[..i]) && Increasing(timecodes)
        decreases |lines| - i
      {
        assert lines[..i + 1][..i] == lines[..i];
        match lines[i] {
          case None =>
          case Some(stamp) =>
            if timecodes != [] && stamp <= timecodes[|timecodes| - 1] {
              assert Stamps(lines[..i + 1]) == timecodes + [stamp];
              NotIncreasing(lines, i + 1, count, |timecodes|);
              return false;
            }
            IncreasingNext(timecodes, stamp);
            timecodes := timecodes + [stamp];
        }
        i := i + 1;
      }
      StampsPrefix(lines, i);
      assert lines[..|lines|] == lines;
      assert timecodes == UpTo(Stamps(lines), count);
      return true;
    }
  }

  lemma IncreasingIsTimed(ts: seq<real>)
    requires |ts| >= 2 && Increasing(ts)
    ensures Timed(ts)
  {
    assert Rises(ts, 1);
    assert ts[0] != 0.0 || ts[1] != 0.0;
  }

  lemma {:induction false} StampsPrefix(lines: seq<Option<real>>, i: nat)
    requires i <= |lines|
    ensures Stamps(lines[..i]) <= Stamps(lines)
    decreases |lines|
  {
    if i == |lines| {
      assert lines[..i] == lines;
    } else {
      var m := |lines| - 1;
      StampsPrefix(lines[..m], i);
      assert lines[..m][..i] == lines[..i];
    }
  }

  lemma NotIncreasing(lines: seq<Option<real>>, i: nat, count: nat, k: nat)
    requires i <= |lines| && 1 <= k < |Stamps(lines[..i])| <= count
    requires Stamps(lines[..i])[k - 1] >= Stamps(lines[..i])[k]
    ensures !Increasing(UpTo(Stamps(lines), count))
  {
    StampsPrefix(lines, i);
    var front, all := Stamps(lines[..i]), UpTo(Stamps(lines), count);
    assert all[k - 1] == front[k - 1] && all[k] == front[k];
    assert !Rises(all, k);
  }
}
