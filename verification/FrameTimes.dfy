/** The exact times of frames at given rates, and what rounding and rescaling
    do to them (CalcSampleTimes and the overflow guard of SetFPS in
    src/mp4trackx.cpp). */
module FrameTimes {
  import Numbers
  import opened RunTables
  import opened TimeBend
  import opened FrameRates

  /** Duration of one frame in units of the time scale. */
  function Delta(scale: int, r: FpsRange): real
    requires r.num != 0
  {
    scale as real / r.num as real * r.denom as real
  }

  /** `n` more times, `delta` apart. */
  function Extend(os: seq<real>, delta: real, n: nat): (r: seq<real>)
    requires os != []
    ensures |r| == |os| + n && r[..|os|] == os
    ensures forall k :: 0 <= k <= n ==> r[|os| - 1 + k] == os[|os| - 1] + Times(k, delta)
  {
    if n == 0 then os
    else
      var r := Extend(os, delta, n - 1);
      r + [r[|r| - 1] + delta]
  }

  /** The exact time of every frame, and of the end of the last one. */
  function Offsets(scale: int, ranges: seq<FpsRange>): (os: seq<real>)
    requires Rates(ranges)
    ensures |os| == TotalFrames(ranges) + 1 && os[0] == 0.0
  {
    if ranges == [] then [0.0]
    else
      var m := |ranges| - 1;
      Extend(Offsets(scale, ranges[..m]), Delta(scale, ranges[m]), ranges[m].numFrames)
  }

  function Rounded(os: seq<real>): (ts: seq<int>)
    ensures |ts| == |os| && forall i :: 0 <= i < |os| ==> ts[i] == Round(os[i])
  {
    seq(|os|, i requires 0 <= i < |os| => Round(os[i]))
  }

  /** From frame `f` on, `n` frames last `delta` each. */
  predicate Evenly(os: seq<real>, f: nat, n: nat, delta: real)
    decreases n
  {
    f + n < |os| && (n > 0 ==> os[f + 1] == os[f] + delta && Evenly(os, f + 1, n - 1, delta))
  }

  lemma EvenNext(os: seq<real>, f: nat, n: nat, delta: real)
    requires Evenly(os, f, n, delta) && n > 0
    ensures f + 1 < |os| && os[f + 1] == os[f] + delta && Evenly(os, f + 1, n - 1, delta)
  {}

  lemma {:induction false} ExtendEvenly(os: seq<real>, delta: real, n: nat, i: nat)
    requires os != [] && i <= n
    ensures Evenly(Extend(os, delta, n), |os| - 1 + i, n - i, delta)
    decreases n - i
  {
    if i < n {
      var r := Extend(os, delta, n);
      assert r[|os| - 1 + (i + 1)] == os[|os| - 1] + Times(i + 1, delta);
      assert r[|os| - 1 + i] == os[|os| - 1] + Times(i, delta);
      ExtendEvenly(os, delta, n, i + 1);
    }
  }

  lemma {:induction false} EvenlyPrefix(os: seq<real>, longer: seq<real>, f: nat, n: nat, delta: real)
    requires |os| <= |longer| && longer[..|os|] == os && Evenly(os, f, n, delta)
    ensures Evenly(longer, f, n, delta)
    decreases n
  {
    assert longer[..|os|][f] == longer[f];
    if n > 0 {
      assert longer[..|os|][f + 1] == longer[f + 1];
      EvenlyPrefix(os, longer, f + 1, n - 1, delta);
    }
  }

  /** The frames of the `k`th range last equally long. */
  lemma {:induction false} RangeIsEven(scale: int, ranges: seq<FpsRange>, k: nat)
    requires Rates(ranges) && k < |ranges|
    ensures ranges[k] in ranges
    ensures Evenly(Offsets(scale, ranges), TotalFrames(ranges[..k]), ranges[k].numFrames, Delta(scale, ranges[k]))
    decreases |ranges|
  {
    var m := |ranges| - 1;
    var front := Offsets(scale, ranges[..m]);
    if k == m {
      ExtendEvenly(front, Delta(scale, ranges[m]), ranges[m].numFrames, 0);
    } else {
      RangeIsEven(scale, ranges[..m], k);
      assert ranges[..m][..k] == ranges[..k];
      EvenlyPrefix(front, Offsets(scale, ranges), TotalFrames(ranges[..k]), ranges[k].numFrames, Delta(scale, ranges[k]));
    }
  }

  lemma TotalNext(ranges: seq<FpsRange>, k: nat)
    requires k < |ranges|
    ensures TotalFrames(ranges[..k + 1]) == TotalFrames(ranges[..k]) + ranges[k].numFrames <= TotalFrames(ranges)
  {
    assert ranges[..k + 1][..k] == ranges[..k];
    TotalPrefix(ranges, k + 1);
  }

  lemma {:induction false} TotalPrefix(ranges: seq<FpsRange>, k: nat)
    requires k <= |ranges|
    ensures TotalFrames(ranges[..k]) <= TotalFrames(ranges)
    decreases |ranges|
  {
    if k == |ranges| {
      assert ranges[..k] == ranges;
    } else {
      var m := |ranges| - 1;
      TotalPrefix(ranges[..m], k);
      assert ranges[..m][..k] == ranges[..k];
    }
  }

  predicate Whole(x: real) {
    x == x.Floor as real
  }

  lemma RealAssociate(a: real, b: real, c: real)
    ensures a * b * c == a * (b * c) == b * (a * c)
  {}

  lemma RealCancel(g: real, a: real, b: real)
    requires g != 0.0 && g * a == g * b
    ensures a == b
  {
    var h := if g < 0.0 then -g else g;
    assert h * a == h * b;
    if a < b {
      RealPositive(h, b - a);
    } else if b < a {
      RealPositive(h, a - b);
    }
  }

  lemma CancelDelta(s: real, g: real, n: real, d: real)
    requires g > 0.0 && n > 0.0
    ensures g * n != 0.0 && s / (g * n) * (g * d) == s / n * d
  {
    RealPositive(g, n);
    var q, p := s / n, s / (g * n);
    assert q * n == s && p * (g * n) == s;
    RealAssociate(p, g, n);
    RealCancel(n, q, p * g);
    RealAssociate(p, g, d);
  }

  /** Reducing a rate does not change its frame duration. */
  lemma ReducedDelta(scale: int, r: FpsRange)
    requires 0 < r.num <= INT_MAX && 0 < r.denom <= INT_MAX
    ensures Reduced(r).num > 0 && Delta(scale, Reduced(r)) == Delta(scale, r)
  {
    ReducedIsRate(r);
    CancelDelta(scale as real, Numbers.Gcd(r.num, r.denom) as real, Reduced(r).num as real, Reduced(r).denom as real);
  }

  /** Reducing some of the rates changes no time. */
  lemma {:induction false} ReducedOffsets(scale: int, ranges: seq<FpsRange>, reduced: seq<FpsRange>)
    requires Rates(ranges) && |reduced| == |ranges|
    requires forall i :: 0 <= i < |ranges| ==> reduced[i] == ranges[i] || reduced[i] == Reduced(ranges[i])
    ensures Rates(reduced) && TotalFrames(reduced) == TotalFrames(ranges)
    ensures Offsets(scale, reduced) == Offsets(scale, ranges)
  {
    if ranges != [] {
      var m := |ranges| - 1;
      ReducedOffsets(scale, ranges[..m], reduced[..m]);
      ReducedDelta(scale, ranges[m]);
      ReducedIsRate(ranges[m]);
      assert ranges[m] in ranges;
      assert reduced == reduced[..m] + [reduced[m]];
    }
  }

  /** Lowest terms: numerator and denominator have no common factor. */
  lemma ReducedCoprime(r: FpsRange) returns (u: int, v: int)
    requires 0 < r.num <= INT_MAX && 0 < r.denom <= INT_MAX
    ensures Reduced(r).num > 0 && u * Reduced(r).num + v * Reduced(r).denom == 1
  {
    ReducedIsRate(r);
    var g, n, d := Numbers.Gcd(r.num, r.denom), Reduced(r).num, Reduced(r).denom;
    u, v := Numbers.Bezout(r.num, r.denom);
    Numbers.Associate(u, g, n);
    Numbers.Associate(v, g, d);
    Numbers.Distribute(g, u * n, v * d);
    Cancel(g, u * n + v * d, 1);
  }

  lemma QuotientProduct(s: real, n: real, d: real)
    requires n > 0.0
    ensures s / n * d * n == s * d
  {
    var q := s / n;
    assert q * n == s;
    RealAssociate(q, d, n);
    RealAssociate(q, n, d);
  }

  lemma {:induction false} RealOfProduct(a: nat, b: int)
    ensures (a * b) as real == a as real * b as real
  {
    if a > 0 {
      RealOfProduct(a - 1, b);
      Numbers.Distribute(b, a - 1, 1);
      RealDistribute((a - 1) as real, 1.0, b as real);
    }
  }

  /** `x * n == s * d` with `n` and `d` coprime: `x` is whole exactly when `n`
      divides `s`. */
  lemma WholeQuotient(x: real, s: int, n: nat, d: int, u: int, v: int)
    requires n > 0 && u * n + v * d == 1 && s >= 0
    requires x * n as real == (s * d) as real
    ensures Whole(x) <==> s % n == 0
  {
    if Whole(x) {
      var k := x.Floor;
      RealOfProduct(n, k);
      assert (n * k) as real == (s * d) as real;
      CoprimeFactor(d, n, v, u, s, k);
      Numbers.ShiftClass(s, 0, n, v * k + u * s);
    } else if s % n == 0 {
      var k := s / n;
      Numbers.Associate(n, k, d);
      RealOfProduct(n, k * d);
      RealCancel(n as real, x, (k * d) as real);
      assert false;
    }
  }

  /** A frame lasts a whole number of units exactly when the scale is a
      multiple of the reduced numerator. */
  lemma WholeDelta(scale: nat, r: FpsRange)
    requires 0 < r.num <= INT_MAX && 0 < r.denom <= INT_MAX
    ensures Reduced(r).num > 0
    ensures Whole(Delta(scale, r)) <==> scale % Reduced(r).num == 0
  {
    ReducedDelta(scale, r);
    var u, v := ReducedCoprime(r);
    var n, d := Reduced(r).num, Reduced(r).denom;
    QuotientProduct(scale as real, n as real, d as real);
    RealOfProduct(scale, d);
    WholeQuotient(Delta(scale, r), scale, n, d, u, v);
  }

  predicate AllWhole(os: seq<real>) {
    forall f :: 0 <= f < |os| ==> Whole(os[f])
  }

  lemma WholeSum(x: real, y: real)
    requires Whole(x)
    ensures Whole(x + y) <==> Whole(y)
  {
    var a := x.Floor;
    if Whole(y) { assert x + y == (a + y.Floor) as real; }
    if Whole(x + y) { assert y == ((x + y).Floor - a) as real; }
  }

  /** Adding frames of one duration keeps times whole exactly when the
      duration is whole. */
  lemma {:induction false} WholeExtend(os: seq<real>, delta: real, n: nat)
    requires os != []
    ensures AllWhole(Extend(os, delta, n)) <==> AllWhole(os) && (n > 0 ==> Whole(delta))
  {
    if n > 0 {
      WholeExtend(os, delta, n - 1);
      var r := Extend(os, delta, n - 1);
      var x := r[|r| - 1];
      var r' := r + [x + delta];
      assert forall f :: 0 <= f < |r| ==> r'[f] == r[f];
      assert r'[|r|] == x + delta;
      if AllWhole(r) {
        assert Whole(x);
        WholeSum(x, delta);
      } else {
        var f :| 0 <= f < |r| && !Whole(r[f]);
        assert !Whole(r'[f]);
      }
    }
  }

  /** All times are whole exactly when the scale represents every rate. */
  lemma {:induction false} WholeOffsets(scale: nat, ranges: seq<FpsRange>)
    requires Rates(ranges) && forall r :: r in ranges ==> r.numFrames > 0
    ensures AllWhole(Offsets(scale, ranges)) <==> Represents(scale, ranges)
  {
    if ranges != [] {
      var m := |ranges| - 1;
      var front, r := ranges[..m], ranges[m];
      assert ranges == front + [r];
      WholeOffsets(scale, front);
      WholeDelta(scale, r);
      WholeExtend(Offsets(scale, front), Delta(scale, r), r.numFrames);
      RepresentsSnoc(scale, ranges);
    }
  }

  lemma RepresentsSnoc(scale: int, ranges: seq<FpsRange>)
    requires Rates(ranges) && ranges != []
    ensures var m := |ranges| - 1;
            && Rates(ranges[..m]) && Reduced(ranges[m]).num > 0
            && (Represents(scale, ranges) <==> Represents(scale, ranges[..m]) && scale % Reduced(ranges[m]).num == 0)
  {
    ReducedIsRate(ranges[|ranges| - 1]);
  }

  /** All frames are exactly on time exactly when the scale represents every
      rate. */
  lemma ExactIff(scale: nat, ranges: seq<FpsRange>)
    requires Rates(ranges) && forall r :: r in ranges ==> r.numFrames > 0
    ensures (forall f :: 0 <= f <= TotalFrames(ranges) ==> Rounded(Offsets(scale, ranges))[f] as real == Offsets(scale, ranges)[f])
            <==> Represents(scale, ranges)
  {
    WholeOffsets(scale, ranges);
    RoundedExact(Offsets(scale, ranges));
  }

  lemma RoundExact(x: real)
    ensures Round(x) as real == x <==> Whole(x)
  {
    if Whole(x) {
      assert Round(x) == x.Floor;
    }
  }

  lemma RoundedExact(os: seq<real>)
    ensures AllWhole(os) <==> forall f :: 0 <= f < |os| ==> Rounded(os)[f] as real == os[f]
  {
    forall f | 0 <= f < |os|
      ensures Rounded(os)[f] as real == os[f] <==> Whole(os[f])
    {
      RoundExact(os[f]);
    }
  }

  /** The automatic scale gives exact times exactly when boosting keeps it a
      multiple of every numerator. */
  lemma AutomaticScaleExactIff(ranges: seq<FpsRange>)
    requires Rates(ranges) && NoOverflow(ranges) && forall r :: r in ranges ==> r.numFrames > 0
    ensures var m, d := CommonScale(ranges), MinDenom(ranges);
            var os := Offsets(Boost(m, d), ranges);
            (forall f :: 0 <= f <= TotalFrames(ranges) ==> Rounded(os)[f] as real == os[f])
            <==> d >= 100 || 100 % d * m < d
  {
    ExactIff(Boost(CommonScale(ranges), MinDenom(ranges)), ranges);
    BoostExactIff(ranges);
  }

  predicate StepsAtLeastOne(os: seq<real>) {
    forall f :: 1 <= f < |os| ==> os[f - 1] + 1.0 <= os[f]
  }

  lemma {:induction false} StepsExtend(os: seq<real>, delta: real, n: nat)
    requires os != [] && StepsAtLeastOne(os) && delta >= 1.0
    ensures StepsAtLeastOne(Extend(os, delta, n))
  {
    if n > 0 {
      StepsExtend(os, delta, n - 1);
    }
  }

  /** Frames that last at least one unit get strictly increasing times. */
  lemma {:induction false} FramesIncrease(scale: int, ranges: seq<FpsRange>)
    requires Rates(ranges) && forall r :: r in ranges ==> Delta(scale, r) >= 1.0
    ensures StepsAtLeastOne(Offsets(scale, ranges))
  {
    if ranges != [] {
      var m := |ranges| - 1;
      FramesIncrease(scale, ranges[..m]);
      assert ranges[m] in ranges;
      StepsExtend(Offsets(scale, ranges[..m]), Delta(scale, ranges[m]), ranges[m].numFrames);
    }
  }

  lemma RoundedIncrease(os: seq<real>)
    requires StepsAtLeastOne(os)
    ensures StrictlyIncreasing(Rounded(os))
  {
    IncreasingSteps(Rounded(os));
  }

  // ---- Durations over 31 bits ----

  /** Runs of frames with their durations, and how long they last together. */
  function Durations(scale: int, ranges: seq<FpsRange>): (ds: seq<(nat, real)>)
    requires Rates(ranges)
    ensures |ds| == |ranges| && forall i :: 0 <= i < |ds| ==> ds[i] == (ranges[i].numFrames, Delta(scale, ranges[i]))
  {
    seq(|ranges|, i requires 0 <= i < |ranges| => (ranges[i].numFrames, Delta(scale, ranges[i])))
  }

  function Span(ds: seq<(nat, real)>): real {
    if ds == [] then 0.0
    else
      var m := |ds| - 1;
      Span(ds[..m]) + Times(ds[m].0, ds[m].1)
  }

  /** The running time of the movie in seconds. */
  function Seconds(ranges: seq<FpsRange>): real
    requires Rates(ranges)
  {
    Span(Durations(1, ranges))
  }

  lemma {:induction false} TimesSum(n: nat, x: real, y: real)
    ensures Times(n, x + y) == Times(n, x) + Times(n, y)
  {
    if n > 0 { TimesSum(n - 1, x, y); }
  }

  lemma {:induction false} TimesSwap(n: nat, m: nat, x: real)
    ensures Times(n, Times(m, x)) == Times(m, Times(n, x))
  {
    if n == 0 {
      TimesOfZero(m);
    } else {
      TimesSwap(n - 1, m, x);
      TimesSum(m, Times(n - 1, x), x);
    }
  }

  lemma {:induction false} TimesOfZero(n: nat)
    ensures Times(n, 0.0) == 0.0
  {
    if n > 0 { TimesOfZero(n - 1); }
  }

  lemma QuotientScaled(s: real, n: real, d: real)
    requires n > 0.0
    ensures s / n * d == s * (1.0 / n * d)
  {
    QuotientProduct(s, n, d);
    QuotientProduct(1.0, n, d);
    var x, y := s / n * d, 1.0 / n * d;
    assert x * n == y * n * s;
    RealAssociate(y, n, s);
    RealCancel(n, x, y * s);
  }

  lemma DeltaScaled(scale: int, r: FpsRange)
    requires r.num > 0
    ensures Delta(scale, r) == Times(scale, Delta(1, r))
  {
    TimesIsProduct(scale, Delta(1, r));
    QuotientScaled(scale as real, r.num as real, r.denom as real);
  }

  lemma DurationsFront(scale: int, ranges: seq<FpsRange>)
    requires Rates(ranges) && ranges != []
    ensures var m := |ranges| - 1;
            && Durations(scale, ranges)[..m] == Durations(scale, ranges[..m])
            && Durations(scale, ranges)[m] == (ranges[m].numFrames, Delta(scale, ranges[m]))
  {}

  lemma {:induction false} LastOffset(scale: int, ranges: seq<FpsRange>)
    requires Rates(ranges)
    ensures Offsets(scale, ranges)[TotalFrames(ranges)] == Span(Durations(scale, ranges))
  {
    if ranges != [] {
      var m := |ranges| - 1;
      LastOffset(scale, ranges[..m]);
      DurationsFront(scale, ranges);
      var os := Offsets(scale, ranges[..m]);
      var os' := Extend(os, Delta(scale, ranges[m]), ranges[m].numFrames);
      assert os'[|os| - 1 + ranges[m].numFrames] == os[|os| - 1] + Times(ranges[m].numFrames, Delta(scale, ranges[m]));
    }
  }

  lemma LastFrames(scale: int, ranges: seq<FpsRange>, i: nat)
    requires Rates(ranges) && ranges != [] && i <= ranges[|ranges| - 1].numFrames
    ensures var m := |ranges| - 1;
            var k := TotalFrames(ranges[..m]);
            && k + i <= TotalFrames(ranges)
            && Offsets(scale, ranges)[k + i] == Offsets(scale, ranges[..m])[k] + Times(i, Delta(scale, ranges[m]))
  {
    var m := |ranges| - 1;
    var os, r := Offsets(scale, ranges[..m]), Extend(Offsets(scale, ranges[..m]), Delta(scale, ranges[m]), ranges[m].numFrames);
    assert r[|os| - 1 + i] == os[|os| - 1] + Times(i, Delta(scale, ranges[m]));
  }

  lemma FrontFrames(scale: int, ranges: seq<FpsRange>, f: nat)
    requires Rates(ranges) && ranges != [] && f <= TotalFrames(ranges[..|ranges| - 1])
    ensures f <= TotalFrames(ranges) && Offsets(scale, ranges)[f] == Offsets(scale, ranges[..|ranges| - 1])[f]
  {
    var m := |ranges| - 1;
    var os := Offsets(scale, ranges[..m]);
    var r := Extend(os, Delta(scale, ranges[m]), ranges[m].numFrames);
    assert r[..|os|][f] == r[f];
  }

  /** Where a frame stands, and the exact time of it: that of the ranges before
      its own and of the frames before it in its range. */
  predicate StandsAt(scale: int, ranges: seq<FpsRange>, front: seq<FpsRange>, r: FpsRange, i: nat)
    requires Rates(ranges) && Rates(front) && r.num != 0
  {
    && TotalFrames(front) + i <= TotalFrames(ranges)
    && Offsets(scale, ranges)[TotalFrames(front) + i] == Span(Durations(scale, front)) + Times(i, Delta(scale, r))
  }

  lemma StandsInLast(scale: int, ranges: seq<FpsRange>, i: nat)
    requires Rates(ranges) && ranges != [] && i <= ranges[|ranges| - 1].numFrames
    ensures StandsAt(scale, ranges, ranges[..|ranges| - 1], ranges[|ranges| - 1], i)
  {
    LastOffset(scale, ranges[..|ranges| - 1]);
    LastFrames(scale, ranges, i);
  }

  lemma StandsInFront(scale: int, ranges: seq<FpsRange>, part: seq<FpsRange>, r: FpsRange, i: nat)
    requires Rates(ranges) && ranges != [] && Rates(part) && r.num != 0
    requires StandsAt(scale, ranges[..|ranges| - 1], part, r, i)
    ensures StandsAt(scale, ranges, part, r, i)
  {
    FrontFrames(scale, ranges, TotalFrames(part) + i);
  }

  lemma {:induction false} OffsetAt(scale: int, ranges: seq<FpsRange>, k: nat, i: nat)
    requires Rates(ranges) && k < |ranges| && i <= ranges[k].numFrames
    ensures ranges[k] in ranges && StandsAt(scale, ranges, ranges[..k], ranges[k], i)
    decreases |ranges|
  {
    var m := |ranges| - 1;
    if k == m {
      StandsInLast(scale, ranges, i);
    } else {
      OffsetAt(scale, ranges[..m], k, i);
      assert ranges[..m][..k] == ranges[..k];
      StandsInFront(scale, ranges, ranges[..k], ranges[k], i);
    }
  }

  /** However many frames precede it, a frame is off its exact time by at most
      half a unit. */
  lemma NoDrift(scale: int, ranges: seq<FpsRange>, k: nat, i: nat)
    requires Rates(ranges) && k < |ranges| && i <= ranges[k].numFrames
    ensures ranges[k] in ranges && TotalFrames(ranges[..k]) + i <= TotalFrames(ranges)
    ensures var exact := Span(Durations(scale, ranges[..k])) + Times(i, Delta(scale, ranges[k]));
            var t := Rounded(Offsets(scale, ranges))[TotalFrames(ranges[..k]) + i];
            exact - 0.5 < t as real <= exact + 0.5
  {
    OffsetAt(scale, ranges, k, i);
  }

  /** In plain numbers: a frame lasts `delta` units, when `scale` units are a
      second and `num` frames last `denom` seconds. */
  lemma FrameLasts(scale: int, ranges: seq<FpsRange>, k: nat, i: nat) returns (delta: real)
    requires Rates(ranges) && k < |ranges| && i < ranges[k].numFrames
    ensures delta * ranges[k].num as real == scale as real * ranges[k].denom as real
    ensures var f := TotalFrames(ranges[..k]) + i;
            f < TotalFrames(ranges) && Offsets(scale, ranges)[f + 1] == Offsets(scale, ranges)[f] + delta
  {
    var r := ranges[k];
    delta := Delta(scale, r);
    OffsetAt(scale, ranges, k, i);
    OffsetAt(scale, ranges, k, i + 1);
    QuotientProduct(scale as real, r.num as real, r.denom as real);
  }

  lemma {:induction false} SpanScaled(scale: nat, ranges: seq<FpsRange>)
    requires Rates(ranges)
    ensures Span(Durations(scale, ranges)) == Times(scale, Seconds(ranges))
  {
    if ranges == [] {
      TimesOfZero(scale);
    } else {
      var m := |ranges| - 1;
      var n := ranges[m].numFrames;
      SpanScaled(scale, ranges[..m]);
      DurationsFront(1, ranges);
      DurationsFront(scale, ranges);
      DeltaScaled(scale, ranges[m]);
      TimesSwap(n, scale, Delta(1, ranges[m]));
      TimesSum(scale, Seconds(ranges[..m]), Times(n, Delta(1, ranges[m])));
    }
  }

  /** The exact duration at any scale. */
  lemma DurationIsScaled(scale: nat, ranges: seq<FpsRange>)
    requires Rates(ranges)
    ensures Offsets(scale, ranges)[TotalFrames(ranges)] == Times(scale, Seconds(ranges))
  {
    LastOffset(scale, ranges);
    SpanScaled(scale, ranges);
  }

  /** Powers of ten, cut down to 32 bits. */
  function WrappedTen(k: nat): (n: nat)
    ensures n < TWO32
  {
    if k == 0 then 1 else 10 * WrappedTen(k - 1) % TWO32
  }

  /** The largest value a power of ten takes in 32 bits. */
  const LARGEST_TEN: nat := 4_135_583_744

  lemma TenAfter(k: nat, w: nat, v: nat, q: nat)
    requires WrappedTen(k) == w && 10 * w == q * TWO32 + v && v < TWO32
    ensures WrappedTen(k + 1) == v
  {}

  /** The powers that wrap, from the tenth on. */
  lemma TensFrom9(j: nat)
    requires WrappedTen(j) == 1_000_000_000
    ensures WrappedTen(j + 1) == 1_410_065_408 && WrappedTen(j + 2) == 1_215_752_192 && WrappedTen(j + 3) == 3_567_587_328
    ensures WrappedTen(j + 4) == 1_316_134_912 && WrappedTen(j + 5) == 276_447_232 && WrappedTen(j + 6) == 2_764_472_320
    ensures WrappedTen(j + 7) == 1_874_919_424 && WrappedTen(j + 8) == 1_569_325_056
  {
    TenAfter(j, 1_000_000_000, 1_410_065_408, 2);
    TenAfter(j + 1, 1_410_065_408, 1_215_752_192, 3);
    TenAfter(j + 2, 1_215_752_192, 3_567_587_328, 2);
    TenAfter(j + 3, 3_567_587_328, 1_316_134_912, 8);
    TenAfter(j + 4, 1_316_134_912, 276_447_232, 3);
    TenAfter(j + 5, 276_447_232, 2_764_472_320, 0);
    TenAfter(j + 6, 2_764_472_320, 1_874_919_424, 6);
    TenAfter(j + 7, 1_874_919_424, 1_569_325_056, 4);
  }

  /** The largest is among these. */
  lemma TensFrom17(j: nat)
    requires WrappedTen(j) == 1_569_325_056
    ensures WrappedTen(j + 1) == 2_808_348_672 && WrappedTen(j + 2) == 2_313_682_944 && WrappedTen(j + 3) == 1_661_992_960
    ensures WrappedTen(j + 4) == 3_735_027_712 && WrappedTen(j + 5) == 2_990_538_752 && WrappedTen(j + 6) == LARGEST_TEN
    ensures WrappedTen(j + 7) == 2_701_131_776 && WrappedTen(j + 8) == 1_241_513_984
  {
    TenAfter(j, 1_569_325_056, 2_808_348_672, 3);
    TenAfter(j + 1, 2_808_348_672, 2_313_682_944, 6);
    TenAfter(j + 2, 2_313_682_944, 1_661_992_960, 5);
    TenAfter(j + 3, 1_661_992_960, 3_735_027_712, 3);
    TenAfter(j + 4, 3_735_027_712, 2_990_538_752, 8);
    TenAfter(j + 5, 2_990_538_752, LARGEST_TEN, 6);
    TenAfter(j + 6, LARGEST_TEN, 2_701_131_776, 9);
    TenAfter(j + 7, 2_701_131_776, 1_241_513_984, 6);
  }

  /** From the thirty-second on, 32 bits hold nothing of a power. */
  lemma TensFrom25(j: nat)
    requires WrappedTen(j) == 1_241_513_984
    ensures WrappedTen(j + 1) == 3_825_205_248 && WrappedTen(j + 2) == 3_892_314_112 && WrappedTen(j + 3) == 268_435_456
    ensures WrappedTen(j + 4) == 2_684_354_560 && WrappedTen(j + 5) == 1_073_741_824 && WrappedTen(j + 6) == 2_147_483_648
    ensures WrappedTen(j + 7) == 0
  {
    TenAfter(j, 1_241_513_984, 3_825_205_248, 2);
    TenAfter(j + 1, 3_825_205_248, 3_892_314_112, 8);
    TenAfter(j + 2, 3_892_314_112, 268_435_456, 9);
    TenAfter(j + 3, 268_435_456, 2_684_354_560, 0);
    TenAfter(j + 4, 2_684_354_560, 1_073_741_824, 6);
    TenAfter(j + 5, 1_073_741_824, 2_147_483_648, 2);
    TenAfter(j + 6, 2_147_483_648, 0, 5);
  }

  lemma {:induction false} WrappedTens(k: nat)
    ensures WrappedTen(k) <= LARGEST_TEN && (WrappedTen(k) == 0 <==> k >= 32)
  {
    if k > 32 {
      WrappedTens(k - 1);
    } else {
      SmallTens();
      var j := 9;
      TensFrom9(j);
      TensFrom17(j + 8);
      TensFrom25(j + 16);
    }
  }

  lemma SmallTens()
    ensures WrappedTen(0) == 1 && WrappedTen(1) == 10 && WrappedTen(2) == 100 && WrappedTen(3) == 1000
    ensures WrappedTen(4) == 10_000 && WrappedTen(5) == 100_000 && WrappedTen(6) == 1_000_000
    ensures WrappedTen(7) == 10_000_000 && WrappedTen(8) == 100_000_000 && WrappedTen(9) == 1_000_000_000
  {}

  lemma LargestTen(j: nat)
    requires j == 23
    ensures WrappedTen(j) == LARGEST_TEN
  {
    SmallTens();
    TensFrom9(j - 14);
    TensFrom17(j - 6);
  }

  /** Below 2^32 powers of ten do not wrap. */
  lemma TenfoldBefore(k: nat)
    requires 2 <= k <= 9
    ensures 0 < WrappedTen(k) == 10 * WrappedTen(k - 1) <= 1_000_000_000
    ensures WrappedTen(k - 1) >= 10 && PowerOfTen(WrappedTen(k - 1)) && (k == 2 ==> WrappedTen(k - 1) == 10)
  {
    SmallTens();
    assert PowerOfTen(1) && PowerOfTen(10) && PowerOfTen(100) && PowerOfTen(1000) && PowerOfTen(10_000);
    assert PowerOfTen(100_000) && PowerOfTen(1_000_000) && PowerOfTen(10_000_000) && PowerOfTen(100_000_000);
  }

  /** The scale the editor falls back to when the duration does not fit: up to
      a limit of 10^9 the largest power of ten below `t`, but never less than
      10. Beyond, powers wrap at 32 bits, and above the largest value they take
      the search is never over: it is stuck at 0, with which this one ends. */
  method PowerBelow(t: real) returns (scale: nat)
    ensures Found(t, scale)
  {
    scale := 100;
    ghost var k := 2;
    SmallTens();
    while scale as real < t && scale != 0
      invariant 2 <= k <= 32 && scale == WrappedTen(k)
      invariant forall j :: 2 <= j < k ==> 0 < WrappedTen(j) && WrappedTen(j) as real < t
      decreases 32 - k
    {
      WrappedTens(k);
      scale, k := scale * 10 % TWO32, k + 1;
    }
    SearchOver(t, k);
    scale := scale / 10;
  }

  /** Where the search stops. */
  lemma SearchOver(t: real, k: nat)
    requires Stops(t, k)
    ensures Found(t, WrappedTen(k) / 10)
  {
    if k <= 9 {
      TenfoldBefore(k);
      assert k > 2 ==> WrappedTen(k - 1) as real < t;
      FoundBefore(t, WrappedTen(k - 1), WrappedTen(k));
    } else {
      var i, j := 9, 23;
      NinthTen(i);
      LargestTen(j);
      WrappedTens(k);
      assert WrappedTen(i) as real < t;
      assert k >= 32 ==> WrappedTen(j) as real < t;
      FoundBehind(t, WrappedTen(k), WrappedTen(k) / 10);
    }
  }

  lemma NinthTen(j: nat)
    requires j == 9
    ensures WrappedTen(j) == 1_000_000_000
  {
    SmallTens();
  }

  /** The first power of ten from 100 on that is not below `t`, or the first
      that is 0. */
  ghost predicate Stops(t: real, k: nat) {
    && k >= 2 && (WrappedTen(k) as real >= t || WrappedTen(k) == 0)
    && forall j :: 2 <= j < k ==> 0 < WrappedTen(j) && WrappedTen(j) as real < t
  }

  /** The search ends with this scale, and what that means. */
  ghost predicate Found(t: real, scale: nat) {
    && (exists k :: Stops(t, k) && scale == WrappedTen(k) / 10)
    && Suits(t, scale)
  }

  ghost predicate Suits(t: real, scale: nat) {
    && (scale == 0 <==> t > LARGEST_TEN as real)
    && (scale != 0 ==> scale >= 10 && (scale == 10 || scale as real < t))
    && (t <= 1_000_000_000.0 ==> PowerOfTen(scale) && t <= scale as real * 10.0)
  }

  lemma FoundBefore(t: real, w: nat, v: nat)
    requires v == 10 * w <= 1_000_000_000 && w >= 10 && PowerOfTen(w) && t <= v as real && (w == 10 || w as real < t)
    ensures Suits(t, v / 10)
  {
    assert v / 10 == w;
  }

  lemma FoundBehind(t: real, v: nat, w: nat)
    requires t > 1_000_000_000.0 && v <= LARGEST_TEN && (if v == 0 then t > LARGEST_TEN as real else v as real >= t)
    requires 10 * w <= v < 10 * w + 10
    ensures Suits(t, w)
  {
    if v > 0 {
      assert v > 1_000_000_000;
    }
  }

  predicate PowerOfTen(n: int) {
    n == 1 || (n > 1 && n % 10 == 0 && PowerOfTen(n / 10))
  }

  /** A duration over 31 bits shrinks to at most 31 bits at a fallback scale
      below `t`, the scale at which the rounded duration would just fit. */
  lemma FallbackFits(ranges: seq<FpsRange>, scale: nat, t: real, fallback: nat)
    requires Rates(ranges)
    requires Round(Offsets(scale, ranges)[TotalFrames(ranges)]) > INT_MAX
    requires t == (scale * INT_MAX) as real / Round(Offsets(scale, ranges)[TotalFrames(ranges)]) as real
    requires fallback as real < t
    ensures Round(Offsets(fallback, ranges)[TotalFrames(ranges)]) <= INT_MAX
  {
    SecondsNonNegative(ranges);
    DurationIsScaled(scale, ranges);
    DurationIsScaled(fallback, ranges);
    TimesFit(Seconds(ranges), scale, Round(Times(scale, Seconds(ranges))), t, fallback);
  }

  lemma TimesFit(seconds: real, scale: nat, duration: int, t: real, fallback: nat)
    requires seconds >= 0.0 && duration == Round(Times(scale, seconds)) > INT_MAX
    requires t == (scale * INT_MAX) as real / duration as real
    requires fallback as real < t
    ensures Round(Times(fallback, seconds)) <= INT_MAX
  {
    TimesIsProduct(scale, seconds);
    TimesIsProduct(fallback, seconds);
    RealOfProduct(scale, INT_MAX);
    FallbackBound(seconds, scale as real, fallback as real, INT_MAX as real, duration as real, t);
  }

  /** When even the smallest fallback is not below `t`, the duration does not
      get under 31 bits: at best it is the largest 31-bit value. */
  lemma FallbackTooFine(ranges: seq<FpsRange>, scale: nat, t: real, fallback: nat)
    requires Rates(ranges)
    requires Round(Offsets(scale, ranges)[TotalFrames(ranges)]) > INT_MAX
    requires t == (scale * INT_MAX) as real / Round(Offsets(scale, ranges)[TotalFrames(ranges)]) as real
    requires fallback as real >= t
    ensures Round(Offsets(fallback, ranges)[TotalFrames(ranges)]) >= INT_MAX
  {
    SecondsNonNegative(ranges);
    DurationIsScaled(scale, ranges);
    DurationIsScaled(fallback, ranges);
    TimesOverflow(Seconds(ranges), scale, Round(Times(scale, Seconds(ranges))), t, fallback);
  }

  lemma TimesOverflow(seconds: real, scale: nat, duration: int, t: real, fallback: nat)
    requires seconds >= 0.0 && duration == Round(Times(scale, seconds)) > INT_MAX
    requires t == (scale * INT_MAX) as real / duration as real
    requires fallback as real >= t
    ensures Round(Times(fallback, seconds)) >= INT_MAX
  {
    TimesIsProduct(scale, seconds);
    TimesIsProduct(fallback, seconds);
    RealOfProduct(scale, INT_MAX);
    FallbackBoundBelow(seconds, scale as real, fallback as real, INT_MAX as real, duration as real, t);
  }

  lemma FallbackBoundBelow(seconds: real, s: real, f: real, m: real, d: real, t: real)
    requires seconds >= 0.0 && 0.0 < m < d && f >= t && t * d == s * m
    requires seconds * s >= d - 0.5
    ensures seconds * f > m - 0.5
  {
    var x, y, z := seconds * s, seconds * f, seconds * t;
    assert y >= z by {
      if seconds > 0.0 { RealMulStrict(f, t, seconds); }
    }
    assert z * d == x * m by {
      RealAssociate(seconds, t, d);
      RealAssociate(seconds, s, m);
    }
    RealMulStrict(x, d - 0.5, m);
    RealDistribute(d, 0.5, m);
    RealDistribute(m, 0.5, d);
    RealMulStrict(m - 0.5, z, d);
  }

  lemma FallbackBound(seconds: real, s: real, f: real, m: real, d: real, t: real)
    requires seconds >= 0.0 && 0.0 < m < d && f < t && t * d == s * m
    requires seconds * s < d + 0.5
    ensures seconds * f < m + 0.5
  {
    var x, y, z := seconds * s, seconds * f, seconds * t;
    assert y <= z by {
      if seconds > 0.0 { RealMulStrict(f, t, seconds); }
    }
    assert z * d == x * m by {
      RealAssociate(seconds, t, d);
      RealAssociate(seconds, s, m);
    }
    RealMulStrict(x, d + 0.5, m);
    RealDistribute(d, 0.5, m);
    RealDistribute(m, 0.5, d);
    RealMulStrict(z, m + 0.5, d);
  }

  lemma RealMulStrict(a: real, b: real, c: real)
    requires c > 0.0
    ensures a < b <==> a * c < b * c
  {
    RealDistribute(a, b, c);
    RealDistribute(b, a, c);
    if a < b { RealPositive(b - a, c); } else if b < a { RealPositive(a - b, c); }
  }

  lemma {:induction false} SpanNonNegative(ds: seq<(nat, real)>)
    requires forall i :: 0 <= i < |ds| ==> ds[i].1 >= 0.0
    ensures Span(ds) >= 0.0
  {
    if ds != [] {
      SpanNonNegative(ds[..|ds| - 1]);
      TimesBounds(ds[|ds| - 1].0, ds[|ds| - 1].1);
    }
  }

  lemma QuotientPositive(n: real, d: real)
    requires n > 0.0 && d > 0.0
    ensures n / d > 0.0
  {
    QuotientCompare(n, d, 0.0);
  }

  lemma SecondsNonNegative(ranges: seq<FpsRange>)
    requires Rates(ranges)
    ensures Seconds(ranges) >= 0.0
  {
    forall i | 0 <= i < |ranges|
      ensures Durations(1, ranges)[i].1 >= 0.0
    {
      QuotientPositive(1.0, ranges[i].num as real);
      RealPositive(1.0 / ranges[i].num as real, ranges[i].denom as real);
    }
    SpanNonNegative(Durations(1, ranges));
  }
}
