/** Choosing a time scale for a list of timecodes (rescaleTimecode in
    src/main.cpp). Factors are exact reals. */
module TimecodeScales {
  import opened Numbers
  import opened TimeBend
  import opened FrameRates
  import opened FrameTimes

  /** Ten to the power of `k`. */
  function Ten(k: int): (x: real)
    ensures x > 0.0
    decreases if k < 0 then -k else k
  {
    if k == 0 then 1.0 else if k > 0 then 10.0 * Ten(k - 1) else Ten(k + 1) / 10.0
  }

  /** How far a duration may be stretched and still be a 31-bit number. */
  function Limit(duration: real): (max: real)
    requires duration > 0.0
    ensures max > 0.0
  {
    QuotientPositive(INT_MAX as real, duration);
    INT_MAX as real / duration
  }

  /** A coarse scale is not refined beyond ten thousand units. */
  function Finest(duration: real, timeScale: nat): (max: real)
    requires duration > 0.0 && timeScale > 0
    ensures max <= Limit(duration)
  {
    var most := 10000.0 / timeScale as real;
    if most < Limit(duration) then most else Limit(duration)
  }

  /** The factor of an automatic scale is the power of ten that makes a
      duration over 31 bits fit with the least loss, or that refines a coarse
      scale furthest while staying below what is allowed; 1 otherwise. */
  ghost predicate Automatic(duration: real, timeScale: nat, scale: real, k: int)
    requires duration > 0.0 && timeScale > 0
  {
    && scale == Ten(k)
    && (if Limit(duration) < 1.0 then k < 0 && scale <= Limit(duration) < 10.0 * scale
        else if timeScale < 100 then scale < Finest(duration, timeScale) <= 10.0 * scale
        else k == 0)
  }

  ghost predicate AutomaticFactor(duration: real, timeScale: nat, scale: real)
    requires duration > 0.0 && timeScale > 0
  {
    exists k :: Automatic(duration, timeScale, scale, k)
  }

  /** At an automatic scale the duration is always a 31-bit number. */
  lemma AutomaticFits(duration: real, timeScale: nat, scale: real, k: int)
    requires duration > 0.0 && timeScale > 0 && Automatic(duration, timeScale, scale, k)
    ensures duration * scale <= INT_MAX as real
  {
    assert scale <= Limit(duration);
    assert Limit(duration) * duration == INT_MAX as real;
    RealMulStrict(Limit(duration), scale, duration);
  }

  lemma TenthSmaller(x: real, max: real)
    requires x > max > 0.0
    ensures 0 <= (x / 10.0 / max).Floor < (x / max).Floor
  {
    var q := x / max;
    QuotientCompare(x, max, 1.0);
    assert q * max == x;
    assert q / 10.0 * max == x / 10.0 by { RealAssociate(q, 0.1, max); }
    QuotientCompare(x / 10.0, max, q / 10.0);
  }

  /** Searches the factor of an automatic scale, a power of ten: the largest that
      makes a duration over 31 bits fit; or, at fewer than 100 units a second, the
      one by which the search has last stayed below ten thousand units a second
      and 31 bits. */
  method SearchFactor(duration: real, timeScale: nat) returns (scale: real, ghost k: int)
    requires duration > 0.0 && timeScale > 0
    ensures AutomaticFactor(duration, timeScale, scale)
    ensures scale == Ten(k)
    ensures var most, finest := 2147483647.0 / duration, 10000.0 / timeScale as real;
            && (most < 1.0 ==> scale <= most < 10.0 * scale)
            && (most >= 1.0 && timeScale < 100 ==>
                  scale < most && scale < finest && (most <= 10.0 * scale || finest <= 10.0 * scale))
            && (most >= 1.0 && timeScale >= 100 ==> scale == 1.0)
  {
    scale := 1.0;
    k := 0;
    var scaleMax := Limit(duration);
    if scaleMax < 1.0 {
      while scale > scaleMax
        invariant k <= 0 && scale == Ten(k) && scaleMax < 10.0 * scale
        invariant k == 0 ==> scale == 1.0
        decreases (scale / scaleMax).Floor
      {
        TenthSmaller(scale, scaleMax);
        scale, k := scale / 10.0, k - 1;
      }
    } else if timeScale < 100 {
      scaleMax := Finest(duration, timeScale);
      MostIsMore(timeScale);
      while scale < scaleMax
        invariant k >= 0 && scale == Ten(k) >= 1.0
        invariant k == 0 || scale < 10.0 * scaleMax
        decreases scaleMax - scale
      {
        scale, k := scale * 10.0, k + 1;
      }
      scale, k := scale / 10.0, k - 1;
    }
    assert Automatic(duration, timeScale, scale, k);
  }

  lemma MostIsMore(timeScale: nat)
    requires 0 < timeScale < 100
    ensures 10000.0 / timeScale as real > 1.0
  {
    QuotientCompare(10000.0, timeScale as real, 100.0);
  }

  /** Every timecode multiplied. */
  function Stretched(ts: seq<real>, scale: real): (us: seq<real>)
    ensures |us| == |ts| && forall i :: 0 <= i < |ts| ==> us[i] == ts[i] * scale
  {
    seq(|ts|, i requires 0 <= i < |ts| => ts[i] * scale)
  }

  /** The whole units a time scale becomes. */
  function ScaleBy(timeScale: nat, scale: real): (n: nat)
    requires scale >= 0.0
    ensures n as real <= timeScale as real * scale < n as real + 1.0
  {
    ProductNonNegative(timeScale as real, scale);
    (timeScale as real * scale).Floor
  }

  lemma ProductNonNegative(a: real, b: real)
    requires a >= 0.0 && b >= 0.0
    ensures a * b >= 0.0
  {
    if a > 0.0 && b > 0.0 { RealPositive(a, b); }
  }

  /** Where the last frame ends if it lasts as long as the one before it. */
  function Closing(ts: seq<real>): (t: real)
    requires |ts| >= 2
    ensures t - ts[|ts| - 1] == ts[|ts| - 1] - ts[|ts| - 2]
  {
    ts[|ts| - 1] * 2.0 - ts[|ts| - 2]
  }

  lemma ClosingStretched(ts: seq<real>, scale: real)
    requires |ts| >= 2
    ensures Closing(Stretched(ts, scale)) == Closing(ts) * scale
  {
    var a, b := ts[|ts| - 1], ts[|ts| - 2];
    assert (a + a) * scale == a * scale + a * scale by { RealDistribute(a, a, scale); }
    assert (a + a - b) * scale == (a + a) * scale - b * scale by { RealDistribute(a + a, b, scale); }
    assert Closing(ts) == a + a - b;
  }

  predicate StaysWhole(timeScale: nat, scale: real) {
    Whole(timeScale as real * scale)
  }

  /** Every timecode is the same time as before, in seconds. */
  predicate SameTimes(ts: seq<real>, us: seq<real>, from: int, to: int) {
    |us| == |ts| && forall i :: 0 <= i < |ts| ==> us[i] * from as real == ts[i] * to as real
  }

  /** Some time is not 0, so that its scale matters. */
  predicate Timed(ts: seq<real>) {
    exists i :: 0 <= i < |ts| && ts[i] != 0.0
  }

  lemma StretchedAt(ts: seq<real>, timeScale: nat, scale: real, i: nat)
    requires i < |ts|
    ensures Stretched(ts, scale)[i] * timeScale as real == ts[i] * (timeScale as real * scale)
  {
    RealAssociate(ts[i], scale, timeScale as real);
  }

  lemma WholeKeepsTimes(ts: seq<real>, timeScale: nat, scale: real)
    requires scale >= 0.0 && StaysWhole(timeScale, scale)
    ensures SameTimes(ts, Stretched(ts, scale), timeScale, ScaleBy(timeScale, scale))
  {
    forall i | 0 <= i < |ts|
      ensures Stretched(ts, scale)[i] * timeScale as real == ts[i] * ScaleBy(timeScale, scale) as real
    {
      StretchedAt(ts, timeScale, scale, i);
    }
  }

  /** Times are kept exactly when the new scale is a whole number before it is
      cut down to one. */
  lemma TimesKeptIff(ts: seq<real>, timeScale: nat, scale: real)
    requires Timed(ts) && scale >= 0.0
    ensures SameTimes(ts, Stretched(ts, scale), timeScale, ScaleBy(timeScale, scale)) <==> StaysWhole(timeScale, scale)
  {
    if StaysWhole(timeScale, scale) {
      WholeKeepsTimes(ts, timeScale, scale);
    }
    if SameTimes(ts, Stretched(ts, scale), timeScale, ScaleBy(timeScale, scale)) {
      var i :| 0 <= i < |ts| && ts[i] != 0.0;
      KeptIsWhole(ts, timeScale, scale, i);
    }
  }

  lemma KeptIsWhole(ts: seq<real>, timeScale: nat, scale: real, i: nat)
    requires i < |ts| && ts[i] != 0.0 && scale >= 0.0
    requires SameTimes(ts, Stretched(ts, scale), timeScale, ScaleBy(timeScale, scale))
    ensures StaysWhole(timeScale, scale)
  {
    var to := ScaleBy(timeScale, scale);
    StretchedAt(ts, timeScale, scale, i);
    assert Stretched(ts, scale)[i] * timeScale as real == ts[i] * to as real;
    RealCancel(ts[i], timeScale as real * scale, to as real);
  }

  lemma {:induction false} TenIsWhole(k: int)
    requires k >= 0
    ensures Ten(k) == Pow10(k) as real && Ten(-k) * Pow10(k) as real == 1.0
  {
    if k > 0 {
      TenIsWhole(k - 1);
      RealOfProduct(10, Pow10(k - 1));
      RealAssociate(Ten(-k), 10.0, Pow10(k - 1) as real);
    }
  }

  lemma WholeTimes(timeScale: nat, x: real, p: nat)
    requires x == p as real
    ensures StaysWhole(timeScale, x)
  {
    RealOfProduct(timeScale, p);
    WholeInt(timeScale as real * x, timeScale * p);
  }

  lemma WholeInt(y: real, n: int)
    requires y == n as real
    ensures Whole(y)
  {}

  lemma TenthWhole(timeScale: nat, x: real, p: nat)
    requires p > 0 && x * p as real == 1.0
    ensures StaysWhole(timeScale, x) <==> timeScale % p == 0
  {
    var y := timeScale as real * x;
    assert y * p as real == timeScale as real by { RealAssociate(timeScale as real, x, p as real); }
    WholeOver(y, timeScale, p);
  }

  lemma WholeOver(y: real, s: nat, p: nat)
    requires p > 0 && y * p as real == s as real
    ensures Whole(y) <==> s % p == 0
  {
    WholeQuotient(y, s, p, 1, 0, 1);
  }

  /** A scale times a power of ten is whole unless the power is negative and
      does not divide the scale. */
  lemma WholeScaleIff(timeScale: nat, k: int)
    ensures StaysWhole(timeScale, Ten(k)) <==> k >= 0 || timeScale % Pow10(-k) == 0
  {
    if k >= 0 {
      TenIsWhole(k);
      WholeTimes(timeScale, Ten(k), Pow10(k));
    } else {
      TenIsWhole(-k);
      TenthWhole(timeScale, Ten(k), Pow10(-k));
    }
  }

  /** An automatic scale keeps all times exactly when it is not coarser than
      before, or the power of ten divides it. */
  lemma AutomaticKeepsTimesIff(ts: seq<real>, duration: real, timeScale: nat, scale: real, k: int)
    requires Timed(ts) && duration > 0.0 && timeScale > 0
    requires Automatic(duration, timeScale, scale, k)
    ensures SameTimes(ts, Stretched(ts, scale), timeScale, ScaleBy(timeScale, scale))
            <==> k >= 0 || timeScale % Pow10(-k) == 0
  {
    TimesKeptIff(ts, timeScale, scale);
    WholeScaleIff(timeScale, k);
  }

  /** A scale of 1001 units does not survive a movie that is too long for it. */
  lemma LongMovieLosesTime() returns (ts: seq<real>, duration: real)
    ensures |ts| == 2 && duration == 2.0 * ts[1] - ts[0] > 0.0
    ensures Automatic(duration, 1001, 0.1, -1)
    ensures !SameTimes(ts, Stretched(ts, 0.1), 1001, ScaleBy(1001, 0.1))
  {
    ts, duration := [0.0, 1_500_000_000.0], 3_000_000_000.0;
    QuotientCompare(INT_MAX as real, duration, 0.1);
    QuotientCompare(INT_MAX as real, duration, 1.0);
    assert ts[1] != 0.0;
    assert Ten(-1) == Ten(0) / 10.0 && Pow10(1) == 10 * Pow10(0);
    AutomaticKeepsTimesIff(ts, duration, 1001, 0.1, -1);
  }

  /** A factor that is a quotient of whole scales always keeps times. */
  lemma RequestedKeepsTimes(ts: seq<real>, timeScale: nat, to: nat)
    requires timeScale > 0
    ensures var scale := to as real / timeScale as real;
            scale >= 0.0 && ScaleBy(timeScale, scale) == to && SameTimes(ts, Stretched(ts, scale), timeScale, to)
  {
    var scale := to as real / timeScale as real;
    QuotientCompare(to as real, timeScale as real, 0.0);
    assert timeScale as real * scale == to as real;
    WholeInt(timeScale as real * scale, to);
    WholeKeepsTimes(ts, timeScale, scale);
  }
}
