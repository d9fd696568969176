/** How the start of a timeline is bent: squeezed to lose `offset` units or
    stretched to gain them (CompressTimeCodes and DelayTimeCodes in
    src/mp4trackx.cpp). Time codes are integers, scales exact reals. */
module TimeBend {

  /** Conversion to an integer after adding one half, for values not below -1/2. */
  function Round(x: real): int {
    (x + 0.5).Floor
  }

  /** `t` times `scale`, as repeated addition: `TimesIsProduct` says so, and
      everything else about scaled times is linear. */
  function Times(t: int, scale: real): real
    decreases if t < 0 then -t else t
  {
    if t == 0 then 0.0
    else if t > 0 then Times(t - 1, scale) + scale
    else Times(t + 1, scale) - scale
  }

  lemma RealDistribute(a: real, b: real, c: real)
    ensures (a + b) * c == a * c + b * c && (a - b) * c == a * c - b * c
  {}

  lemma {:induction false} TimesIsProduct(t: int, scale: real)
    ensures Times(t, scale) == t as real * scale
    decreases if t < 0 then -t else t
  {
    if t > 0 {
      TimesIsProduct(t - 1, scale);
      RealDistribute((t - 1) as real, 1.0, scale);
    } else if t < 0 {
      TimesIsProduct(t + 1, scale);
      RealDistribute((t + 1) as real, 1.0, scale);
    }
  }

  /** A scaled time code. */
  function Scaled(t: int, scale: real): int {
    Round(Times(t, scale))
  }

  lemma {:induction false} TimesAdd(s: nat, d: nat, scale: real)
    ensures Times(s + d, scale) == Times(s, scale) + Times(d, scale)
  {
    if d > 0 {
      TimesAdd(s, d - 1, scale);
    }
  }

  lemma {:induction false} TimesBounds(t: nat, scale: real)
    ensures scale >= 0.0 ==> Times(t, scale) >= 0.0
    ensures scale <= 1.0 ==> Times(t, scale) <= t as real
    ensures scale >= 1.0 ==> Times(t, scale) >= t as real
    ensures scale == 1.0 ==> Times(t, scale) == t as real
    ensures scale >= 0.5 ==> 2.0 * Times(t, scale) >= t as real
  {
    if t > 0 { TimesBounds(t - 1, scale); }
  }

  /** Scaling preserves distances at least as far as the scale does. */
  lemma {:induction false} TimesStep(s: nat, d: nat, t: nat, scale: real)
    requires s + d <= t && scale >= 0.0
    ensures Times(t, scale) >= Times(s, scale) + Times(d, scale)
  {
    var m := s + d;
    var rest := t - m;
    TimesAdd(s, d, scale);
    TimesAdd(m, rest, scale);
    TimesBounds(rest, scale);
  }

  predicate StrictlyIncreasing(ts: seq<int>) {
    forall i, j :: 0 <= i < j < |ts| ==> ts[i] < ts[j]
  }

  predicate GapsAtLeast(ts: seq<int>, d: int) {
    forall i :: 1 <= i < |ts| ==> ts[i - 1] + d <= ts[i]
  }

  /** Consecutive increase is increase. */
  lemma {:induction false} IncreasingSteps(us: seq<int>)
    requires GapsAtLeast(us, 1)
    ensures StrictlyIncreasing(us)
  {
    if us != [] {
      var m := |us| - 1;
      IncreasingSteps(us[..m]);
      forall i | 0 <= i < m
        ensures us[i] < us[m]
      {
        assert us[..m][i] <= us[..m][m - 1];
      }
    }
  }

  lemma {:induction false} NonNegativeTimes(ts: seq<int>, i: nat)
    requires ts != [] && ts[0] >= 0 && GapsAtLeast(ts, 0) && i < |ts|
    ensures ts[i] >= 0
  {
    if i > 0 { NonNegativeTimes(ts, i - 1); }
  }

  lemma RealPositive(a: real, b: real)
    requires a > 0.0 && b > 0.0
    ensures a * b > 0.0
  {}

  lemma QuotientCompare(n: real, d: real, c: real)
    requires d > 0.0
    ensures n / d <= c <==> n <= c * d
    ensures n / d >= c <==> n >= c * d
  {
    var q := n / d;
    assert q * d == n;
    RealDistribute(q, c, d);
    RealDistribute(c, q, d);
    if q > c { RealPositive(q - c, d); } else if q < c { RealPositive(c - q, d); }
  }

  // ---- Compression ----

  function CompressScale(off: int, offset: int): real
    requires offset + off > 0
  {
    var s := off as real / (offset + off) as real;
    if s < 0.5 then 0.5 else s
  }

  lemma CompressScaleBounds(off: int, offset: int)
    requires off > 0 && offset >= 0
    ensures 0.5 <= CompressScale(off, offset) <= 1.0
    ensures offset == 0 ==> CompressScale(off, offset) == 1.0
  {
    QuotientCompare(off as real, (offset + off) as real, 1.0);
  }

  /** The value the loops call `prev` when they look at index `i`. */
  function Prev(us: seq<int>, i: nat): int
    requires 1 <= i <= |us|
  {
    if i == 1 then 0 else us[i - 1]
  }

  /** Two equal neighbours are kept apart. */
  function Apart(cur: int, prev: int): int {
    if cur == prev then cur + 1 else cur
  }

  /** The shifted timeline has come the first sample's scaled duration ahead
      of the squeezed one. */
  predicate CaughtUp(t: int, prev: int, offset: int, off: int, scale: real) {
    (t - offset) as real >= prev as real + Times(off, scale)
  }

  /** `us` is `ts` compressed by `offset`: squeezed below the break `b`,
      shifted from the break on. */
  ghost predicate Compressed(ts: seq<int>, us: seq<int>, offset: int, b: nat)
    requires |ts| >= 2 && offset + ts[1] > 0
  {
    var scale := CompressScale(ts[1], offset);
    && |us| == |ts| && us[0] == ts[0]
    && 1 <= b <= |ts|
    && (forall i {:trigger Prev(us, i)} :: 1 <= i < b ==>
          !CaughtUp(ts[i], Prev(us, i), offset, ts[1], scale) && us[i] == Apart(Scaled(ts[i], scale), Prev(us, i)))
    && (b < |ts| ==> CaughtUp(ts[b], Prev(us, b), offset, ts[1], scale))
    && (forall i :: b <= i < |ts| ==> us[i] == ts[i] - offset)
  }

  /** The timeline while it is being squeezed, before index `n`. */
  ghost predicate Squeezing(ts: seq<int>, us: seq<int>, offset: int, scale: real, n: nat)
    requires |ts| >= 2
  {
    && |us| == |ts| && 1 <= n <= |ts| && us[0] == ts[0]
    && (forall i {:trigger Prev(us, i)} :: 1 <= i < n ==>
          !CaughtUp(ts[i], Prev(us, i), offset, ts[1], scale) && us[i] == Apart(Scaled(ts[i], scale), Prev(us, i)))
    && (forall i :: n <= i < |ts| ==> us[i] == ts[i])
  }

  lemma SqueezeNext(ts: seq<int>, us: seq<int>, offset: int, scale: real, n: nat)
    requires |ts| >= 2 && Squeezing(ts, us, offset, scale, n) && n < |ts|
    requires !CaughtUp(ts[n], Prev(us, n), offset, ts[1], scale)
    ensures Squeezing(ts, us[n := Apart(Scaled(ts[n], scale), Prev(us, n))], offset, scale, n + 1)
  {
    var us' := us[n := Apart(Scaled(ts[n], scale), Prev(us, n))];
    assert forall i :: 1 <= i <= n ==> Prev(us', i) == Prev(us, i);
  }

  lemma SqueezeDone(ts: seq<int>, us: seq<int>, us': seq<int>, offset: int, n: nat)
    requires |ts| >= 2 && offset + ts[1] > 0
    requires Squeezing(ts, us, offset, CompressScale(ts[1], offset), n)
    requires n < |ts| ==> CaughtUp(ts[n], Prev(us, n), offset, ts[1], CompressScale(ts[1], offset))
    requires us' == Shifted(us, n, -offset)
    ensures Compressed(ts, us', offset, n)
  {
    assert forall i :: 1 <= i <= n && i < |ts| ==> Prev(us', i) == Prev(us, i);
  }

  /** Everything from `n` on moved by `d`. */
  function Shifted(us: seq<int>, n: nat, d: int): (r: seq<int>)
    requires n <= |us|
    ensures |r| == |us|
    ensures forall i :: 0 <= i < |us| ==> r[i] == if i < n then us[i] else us[i] + d
  {
    seq(|us|, i requires 0 <= i < |us| => if i < n then us[i] else us[i] + d)
  }

  /** The times from index `i` on as the loops leave them. */
  function SqueezeFrom(ts: seq<int>, offset: int, prev: int, i: nat): (us: seq<int>)
    requires |ts| >= 2 && offset + ts[1] > 0 && 1 <= i <= |ts|
    ensures |us| == |ts| - i
    decreases |ts| - i
  {
    var scale := CompressScale(ts[1], offset);
    if i == |ts| then []
    else if CaughtUp(ts[i], prev, offset, ts[1], scale) then Shifted(ts[i..], 0, -offset)
    else
      var cur := Apart(Scaled(ts[i], scale), prev);
      [cur] + SqueezeFrom(ts, offset, cur, i + 1)
  }

  /** The compressed timeline. */
  function Compress(ts: seq<int>, offset: int): (us: seq<int>)
    requires |ts| >= 2 && offset + ts[1] > 0
    ensures |us| == |ts|
  {
    [ts[0]] + SqueezeFrom(ts, offset, 0, 1)
  }

  lemma {:induction false} SqueezedFrom(ts: seq<int>, us: seq<int>, offset: int, b: nat, i: nat)
    requires |ts| >= 2 && offset + ts[1] > 0 && Compressed(ts, us, offset, b) && 1 <= i <= b
    ensures us[i..] == SqueezeFrom(ts, offset, Prev(us, i), i)
    decreases b - i
  {
    if i < b {
      SqueezedFrom(ts, us, offset, b, i + 1);
      assert us[i..] == [us[i]] + us[i + 1..];
      assert Prev(us, i + 1) == us[i];
    } else if b < |ts| {
      assert us[b..] == Shifted(ts[b..], 0, -offset);
    }
  }

  /** A timeline is compressed in one way only. */
  lemma CompressedIs(ts: seq<int>, us: seq<int>, offset: int, b: nat)
    requires |ts| >= 2 && offset + ts[1] > 0 && Compressed(ts, us, offset, b)
    ensures us == Compress(ts, offset)
  {
    SqueezedFrom(ts, us, offset, b, 1);
    assert us == [us[0]] + us[1..];
  }

  /** A timeline the editor compresses: its times increase from one that is not
      negative. */
  predicate Compressible(ts: seq<int>, offset: int) {
    |ts| >= 2 && ts[0] >= 0 && GapsAtLeast(ts, 1) && offset >= 0
  }

  /** The timeline as the loop sees it, which never looks at the first time and
      counts from 0 instead. */
  function Grounded(ts: seq<int>): (zs: seq<int>)
    requires ts != []
    ensures |zs| == |ts| && zs[0] == 0 && forall i :: 1 <= i < |ts| ==> zs[i] == ts[i]
  {
    ts[0 := 0]
  }

  lemma GroundedCompressed(ts: seq<int>, us: seq<int>, offset: int, b: nat)
    requires Compressible(ts, offset) && Compressed(ts, us, offset, b)
    ensures Compressible(Grounded(ts), offset) && Compressed(Grounded(ts), Grounded(us), offset, b)
  {
    assert forall i :: 1 <= i <= |us| ==> Prev(Grounded(us), i) == Prev(us, i);
  }

  /** Compression never raises a time. */
  lemma {:induction false} NeverRaised(ts: seq<int>, us: seq<int>, offset: int, b: nat, i: nat)
    requires Compressible(ts, offset) && Compressed(ts, us, offset, b) && i < |ts|
    ensures us[i] <= ts[i]
  {
    if 1 <= i < b {
      NonNegativeTimes(ts, i);
      CompressScaleBounds(ts[1], offset);
      TimesBounds(ts[i], CompressScale(ts[1], offset));
      NeverRaised(ts, us, offset, b, i - 1);
      assert Prev(us, i) <= ts[i - 1];
    }
  }

  /** The shift takes over at once only if there is nothing to shift. */
  lemma BreakAtOnce(ts: seq<int>, us: seq<int>, offset: int, b: nat)
    requires |ts| >= 2 && ts[1] > 0 && offset >= 0 && Compressed(ts, us, offset, b)
    ensures b == 1 <==> offset == 0
  {
    if offset == 0 {
      CompressByZero(ts, us, b);
    } else {
      var t, scale := ts[1], CompressScale(ts[1], offset);
      TimesIsProduct(t, scale);
      FirstScaled(t as real, offset as real, t as real / (offset + t) as real, scale);
      assert !CaughtUp(ts[1], Prev(us, 1), offset, t, scale);
      assert b < |ts| ==> CaughtUp(ts[b], Prev(us, b), offset, t, scale);
    }
  }

  lemma FirstScaled(t: real, o: real, s: real, scale: real)
    requires t > 0.0 && o > 0.0 && s == t / (o + t) && scale >= s
    ensures t * scale > t - o
  {
    var d := o + t;
    assert s * d == t;
    RealDistribute(o, t, s);
    assert o * s + t * s == t;
    QuotientCompare(t, d, 1.0);
    RealPositive(o, 1.0 - s);
    assert o * (1.0 - s) == o - o * s;
    assert t * s > t - o;
    if scale > s {
      RealPositive(t, scale - s);
      assert t * (scale - s) == t * scale - t * s;
    }
  }

  /** Nothing to lose, nothing changed. */
  lemma CompressByZero(ts: seq<int>, us: seq<int>, b: nat)
    requires |ts| >= 2 && ts[1] > 0 && Compressed(ts, us, 0, b)
    ensures us == ts && b == 1
  {
    CompressScaleBounds(ts[1], 0);
    TimesBounds(ts[1], 1.0);
    assert CaughtUp(ts[1], Prev(us, 1), 0, ts[1], 1.0);
  }

  /** What compressing comes to in plain numbers, `xs` being the times multiplied
      by the scale, which is at least one half: below the break they are rounded,
      and one more is added if that is the time before; from the break on
      `offset` is taken off, as soon as that leaves the first sample's scaled
      length after the time before. */
  lemma CompressedMeans(ts: seq<int>, us: seq<int>, offset: int, b: nat) returns (scale: real, xs: seq<real>)
    requires |ts| >= 2 && offset + ts[1] > 0 && Compressed(ts, us, offset, b)
    ensures var s := ts[1] as real / (offset + ts[1]) as real; scale == if s > 0.5 then s else 0.5
    ensures |xs| == |ts| && forall i :: 0 <= i < |ts| ==> xs[i] == ts[i] as real * scale
    ensures |us| == |ts| && us[0] == ts[0] && 1 <= b <= |ts|
    ensures forall i :: 1 <= i < b ==>
              var prev, cur := if i == 1 then 0 else us[i - 1], (xs[i] + 0.5).Floor;
              (ts[i] - offset) as real < prev as real + xs[1] && us[i] == if cur == prev then cur + 1 else cur
    ensures b < |ts| ==> (ts[b] - offset) as real >= (if b == 1 then 0 else us[b - 1]) as real + xs[1]
    ensures forall i :: b <= i < |ts| ==> us[i] == ts[i] - offset
  {
    scale := CompressScale(ts[1], offset);
    xs := Products(ts, scale);
    forall i | 1 <= i < b
      ensures var prev, cur := if i == 1 then 0 else us[i - 1], (xs[i] + 0.5).Floor;
              (ts[i] - offset) as real < prev as real + xs[1] && us[i] == if cur == prev then cur + 1 else cur
    {
      assert Prev(us, i) == if i == 1 then 0 else us[i - 1];
    }
  }

  /** A tenth of a second at 24000 units, for samples that last 1000. */
  lemma CompressedByTenth(us: seq<int>, b: nat)
    requires Compressed([0, 1000, 2000, 3000, 4000, 5000, 6000], us, 2400, b)
    ensures us == [0, 500, 1000, 1500, 2000, 2600, 3600]
  {
    var scale, xs := CompressedMeans([0, 1000, 2000, 3000, 4000, 5000, 6000], us, 2400, b);
    QuotientCompare(1000.0, 3400.0, 0.5);
    assert scale == 0.5;
    assert xs[1] == 500.0 && xs[2] == 1000.0 && xs[3] == 1500.0 && xs[4] == 2000.0 && xs[5] == 2500.0;
    assert b > 1 && us[1] == 500;
    assert b > 2 && us[2] == 1000;
    assert b > 3 && us[3] == 1500;
    assert b > 4 && us[4] == 2000;
    assert b == 5;
  }

  lemma Products(ts: seq<int>, scale: real) returns (xs: seq<real>)
    ensures |xs| == |ts| && forall i :: 0 <= i < |ts| ==> xs[i] == ts[i] as real * scale == Times(ts[i], scale)
  {
    xs := seq(|ts|, i requires 0 <= i < |ts| => Times(ts[i], scale));
    forall i | 0 <= i < |ts|
      ensures Times(ts[i], scale) == ts[i] as real * scale
    {
      TimesIsProduct(ts[i], scale);
    }
  }

  // ---- When compression keeps the order ----

  /** Two neighbours get the same scaled time. */
  predicate Collides(ts: seq<int>, scale: real, i: nat)
    requires 1 <= i < |ts|
  {
    Scaled(ts[i], scale) == Scaled(ts[i - 1], scale)
  }

  /** Scaled times leave one unit free between two neighbours. */
  predicate Leaps(ts: seq<int>, scale: real, i: nat)
    requires 1 <= i < |ts|
  {
    Scaled(ts[i], scale) >= Scaled(ts[i - 1], scale) + 2
  }

  /** Some collision up to `i` has not been made up for since. */
  predicate Owes(ts: seq<int>, scale: real, i: nat)
    requires i < |ts|
  {
    exists j {:trigger Collides(ts, scale, j)} :: 1 <= j <= i && Collides(ts, scale, j) && NoLeap(ts, scale, j, i)
  }

  predicate NoLeap(ts: seq<int>, scale: real, j: nat, i: nat)
    requires i < |ts|
  {
    forall m {:trigger Leaps(ts, scale, m)} :: j < m <= i ==> !Leaps(ts, scale, m)
  }

  /** Below `n` there is a leap between any two collisions. */
  predicate Spaced(ts: seq<int>, scale: real, n: nat)
    requires n <= |ts|
  {
    forall i {:trigger Collides(ts, scale, i)} :: 1 <= i < n && Collides(ts, scale, i) ==> !Owes(ts, scale, i - 1)
  }

  lemma OneUnitStep(s: nat, t: nat, scale: real)
    requires s < t && 0.5 <= scale <= 1.0
    ensures Scaled(s, scale) <= Scaled(t, scale)
  {
    TimesStep(s, 1, t, scale);
    TimesBounds(1, scale);
  }

  /** A debt is kept by a step of one and paid by a leap. */
  lemma OwesNext(ts: seq<int>, scale: real, i: nat)
    requires 1 <= i < |ts| && Scaled(ts[i - 1], scale) <= Scaled(ts[i], scale)
    ensures Owes(ts, scale, i) <==> Collides(ts, scale, i) || (Owes(ts, scale, i - 1) && !Leaps(ts, scale, i))
  {
    assert NoLeap(ts, scale, i, i);
    if Owes(ts, scale, i) && !Collides(ts, scale, i) {
      var j :| 1 <= j <= i && Collides(ts, scale, j) && NoLeap(ts, scale, j, i);
      assert NoLeap(ts, scale, j, i - 1) && !Leaps(ts, scale, i);
    }
    if Owes(ts, scale, i - 1) && !Leaps(ts, scale, i) {
      var j :| 1 <= j <= i - 1 && Collides(ts, scale, j) && NoLeap(ts, scale, j, i - 1);
      assert NoLeap(ts, scale, j, i);
    }
  }

  /** While collisions are spaced, a squeezed time is the scaled one, or one
      more while a unit is owed, and follows its predecessor. */
  lemma {:induction false} SqueezedWithDebt(ts: seq<int>, us: seq<int>, offset: int, b: nat, i: nat)
    requires Compressible(ts, offset) && ts[0] == 0 && Compressed(ts, us, offset, b) && i < b
    requires Spaced(ts, CompressScale(ts[1], offset), i + 1)
    ensures us[i] == Scaled(ts[i], CompressScale(ts[1], offset)) + if Owes(ts, CompressScale(ts[1], offset), i) then 1 else 0
    ensures i > 0 ==> us[i - 1] < us[i]
  {
    var scale := CompressScale(ts[1], offset);
    CompressScaleBounds(ts[1], offset);
    if i == 0 {
      assert Times(0, scale) == 0.0;
    } else {
      SqueezedWithDebt(ts, us, offset, b, i - 1);
      NonNegativeTimes(ts, i - 1);
      OneUnitStep(ts[i - 1], ts[i], scale);
      OwesNext(ts, scale, i);
      assert Prev(us, i) == us[i - 1];
      assert us[i] == Apart(Scaled(ts[i], scale), us[i - 1]);
      ApartStep(Scaled(ts[i - 1], scale), Scaled(ts[i], scale), Owes(ts, scale, i - 1), Owes(ts, scale, i));
    }
  }

  lemma ApartStep(x: int, y: int, owed: bool, owes: bool)
    requires x <= y && !(x == y && owed) && (owes <==> x == y || (owed && y < x + 2))
    ensures x + (if owed then 1 else 0) < Apart(y, x + if owed then 1 else 0) == y + if owes then 1 else 0
  {}

  /** A collision while a unit is owed puts two samples out of order. */
  lemma DebtBreaksOrder(ts: seq<int>, us: seq<int>, offset: int, b: nat, i: nat)
    requires Compressible(ts, offset) && ts[0] == 0 && Compressed(ts, us, offset, b) && 1 <= i < b
    requires Spaced(ts, CompressScale(ts[1], offset), i)
    requires Collides(ts, CompressScale(ts[1], offset), i) && Owes(ts, CompressScale(ts[1], offset), i - 1)
    ensures us[i] < us[i - 1]
  {
    SqueezedWithDebt(ts, us, offset, b, i - 1);
    assert Prev(us, i) == us[i - 1];
  }

  /** The squeezed time before index `i`, as long as collisions are spaced. */
  function Expected(zs: seq<int>, scale: real, i: nat): int
    requires 1 <= i <= |zs|
  {
    Scaled(zs[i - 1], scale) + if Owes(zs, scale, i - 1) then 1 else 0
  }

  /** The first index from `i` on at which the shift would take over from the
      scaled times. */
  function BreakFrom(zs: seq<int>, offset: int, i: nat): (b: nat)
    requires |zs| >= 2 && offset + zs[1] > 0 && 1 <= i <= |zs|
    ensures i <= b <= |zs|
    decreases |zs| - i
  {
    var scale := CompressScale(zs[1], offset);
    if i == |zs| || CaughtUp(zs[i], Expected(zs, scale, i), offset, zs[1], scale) then i else BreakFrom(zs, offset, i + 1)
  }

  /** The first time stays below the squeezed second one. */
  predicate FirstStays(ts: seq<int>, offset: int)
    requires |ts| >= 2 && offset + ts[1] > 0
  {
    offset == 0 || ts[0] < Scaled(ts[1], CompressScale(ts[1], offset))
  }

  /** The first time stays first, and up to where the shift takes over scaled
      times leap between any two collisions. */
  predicate StaysOrdered(ts: seq<int>, offset: int)
    requires Compressible(ts, offset)
  {
    && FirstStays(ts, offset)
    && Spaced(Grounded(ts), CompressScale(ts[1], offset), BreakFrom(Grounded(ts), offset, 1))
  }

  lemma ExpectedBefore(zs: seq<int>, us: seq<int>, offset: int, b: nat, i: nat)
    requires Compressible(zs, offset) && zs[0] == 0 && Compressed(zs, us, offset, b) && 1 <= i <= b
    requires Spaced(zs, CompressScale(zs[1], offset), i)
    ensures Prev(us, i) == Expected(zs, CompressScale(zs[1], offset), i)
  {
    SqueezedWithDebt(zs, us, offset, b, i - 1);
    assert Times(0, CompressScale(zs[1], offset)) == 0.0;
  }

  /** While collisions are spaced the loop has not broken off before `n`. */
  lemma {:induction false} BreakIsNotBefore(zs: seq<int>, us: seq<int>, offset: int, b: nat, i: nat, n: nat)
    requires Compressible(zs, offset) && zs[0] == 0 && Compressed(zs, us, offset, b) && 1 <= i <= n < b
    requires Spaced(zs, CompressScale(zs[1], offset), n)
    ensures BreakFrom(zs, offset, i) > n
    decreases n - i
  {
    ExpectedBefore(zs, us, offset, b, i);
    if i < n { BreakIsNotBefore(zs, us, offset, b, i + 1, n); }
  }

  lemma {:induction false} BreakIsThere(zs: seq<int>, us: seq<int>, offset: int, b: nat, i: nat)
    requires Compressible(zs, offset) && zs[0] == 0 && Compressed(zs, us, offset, b) && 1 <= i <= b
    requires Spaced(zs, CompressScale(zs[1], offset), b)
    ensures BreakFrom(zs, offset, i) == b
    decreases b - i
  {
    ExpectedBefore(zs, us, offset, b, i);
    if i < b { BreakIsThere(zs, us, offset, b, i + 1); }
  }

  /** Collisions are spaced up to where the loop breaks off exactly if they are
      up to where it can be told in advance. */
  lemma SpacedToTheBreak(zs: seq<int>, us: seq<int>, offset: int, b: nat)
    requires Compressible(zs, offset) && zs[0] == 0 && Compressed(zs, us, offset, b)
    ensures var scale := CompressScale(zs[1], offset);
            Spaced(zs, scale, b) <==> Spaced(zs, scale, BreakFrom(zs, offset, 1))
  {
    var scale := CompressScale(zs[1], offset);
    if Spaced(zs, scale, b) {
      BreakIsThere(zs, us, offset, b, 1);
    } else {
      var i := FirstBreach(zs, scale, b);
      BreakIsNotBefore(zs, us, offset, b, 1, i);
    }
  }

  /** A timeline that counts from 0 keeps its order exactly when, below the
      break, scaled times leap between any two collisions. */
  lemma GroundedOrderIff(ts: seq<int>, us: seq<int>, offset: int, b: nat)
    requires Compressible(ts, offset) && ts[0] == 0 && Compressed(ts, us, offset, b)
    ensures StrictlyIncreasing(us) <==> Spaced(ts, CompressScale(ts[1], offset), b)
  {
    var scale := CompressScale(ts[1], offset);
    if Spaced(ts, scale, b) {
      CompressScaleBounds(ts[1], offset);
      forall i | 1 <= i < |us|
        ensures us[i - 1] + 1 <= us[i]
      {
        if i < b {
          SqueezedWithDebt(ts, us, offset, b, i);
        } else if i == b {
          AtTheBreak(ts, us, offset, b);
        }
      }
      IncreasingSteps(us);
    } else {
      var i := FirstBreach(ts, scale, b);
      DebtBreaksOrder(ts, us, offset, b, i);
    }
  }

  /** Whether compression keeps a timeline in order can be told before: exactly
      if the first time stays first and collisions are spaced. */
  lemma CompressKeepsOrderIff(ts: seq<int>, us: seq<int>, offset: int, b: nat)
    requires Compressible(ts, offset) && Compressed(ts, us, offset, b)
    ensures StrictlyIncreasing(us) <==> StaysOrdered(ts, offset)
  {
    GroundedCompressed(ts, us, offset, b);
    GroundedOrderIff(Grounded(ts), Grounded(us), offset, b);
    SpacedToTheBreak(Grounded(ts), Grounded(us), offset, b);
    SecondTime(ts, us, offset, b);
    FirstThenRest(us);
  }

  /** What becomes of the second time. */
  lemma SecondTime(ts: seq<int>, us: seq<int>, offset: int, b: nat)
    requires Compressible(ts, offset) && Compressed(ts, us, offset, b)
    ensures FirstStays(ts, offset) <==> us[0] < us[1]
  {
    var scale := CompressScale(ts[1], offset);
    BreakAtOnce(ts, us, offset, b);
    CompressScaleBounds(ts[1], offset);
    TimesBounds(ts[1], scale);
    assert Prev(us, 1) == 0;
  }

  lemma FirstThenRest(us: seq<int>)
    requires |us| >= 2 && us[0] >= 0
    ensures StrictlyIncreasing(us) <==> us[0] < us[1] && StrictlyIncreasing(Grounded(us))
  {
    var zs := Grounded(us);
    if us[0] < us[1] && StrictlyIncreasing(zs) {
      forall i | 1 <= i < |us|
        ensures us[i - 1] + 1 <= us[i]
      {
        assert i > 1 ==> zs[i - 1] < zs[i];
      }
      IncreasingSteps(us);
    }
    if StrictlyIncreasing(us) {
      forall i | 1 <= i < |us|
        ensures zs[i - 1] + 1 <= zs[i]
      {
        assert us[i - 1] < us[i];
      }
      IncreasingSteps(zs);
    }
  }

  /** One squeezed step of at least two units still moves forward. */
  lemma SqueezeStep(s: nat, t: nat, scale: real)
    requires s + 2 <= t && 0.5 <= scale <= 1.0
    ensures Scaled(s, scale) + 1 <= Scaled(t, scale)
  {
    TimesStep(s, 2, t, scale);
    TimesBounds(2, scale);
  }

  /** Samples of two units or more never collide. */
  lemma TwoUnitsAreSpaced(ts: seq<int>, scale: real, n: nat)
    requires ts != [] && ts[0] == 0 && n <= |ts| && 0.5 <= scale <= 1.0
    requires (|ts| >= 2 ==> ts[1] > 0) && forall i :: 2 <= i < |ts| ==> ts[i - 1] + 2 <= ts[i]
    ensures forall i {:trigger Collides(ts, scale, i)} :: 1 <= i < n ==> !Collides(ts, scale, i)
    ensures Spaced(ts, scale, n)
  {
    forall i {:trigger Collides(ts, scale, i)} | 1 <= i < n
      ensures !Collides(ts, scale, i)
    {
      NonNegativeTimes(ts, i - 1);
      if i == 1 {
        TimesBounds(ts[1], scale);
        assert Times(0, scale) == 0.0;
      } else {
        SqueezeStep(ts[i - 1], ts[i], scale);
      }
    }
  }

  /** Below the break the squeezed times are the scaled ones: the increment
      for equal neighbours is never needed. */
  lemma SqueezedAt(ts: seq<int>, us: seq<int>, offset: int, b: nat, i: nat)
    requires Compressible(ts, offset) && GapsAtLeast(ts, 2) && Compressed(ts, us, offset, b) && 1 <= i < b
    ensures Prev(us, i) == Scaled(Grounded(ts)[i - 1], CompressScale(ts[1], offset))
    ensures us[i] == Scaled(ts[i], CompressScale(ts[1], offset)) > Prev(us, i)
  {
    var zs, vs, scale := Grounded(ts), Grounded(us), CompressScale(ts[1], offset);
    CompressScaleBounds(ts[1], offset);
    GroundedCompressed(ts, us, offset, b);
    TwoUnitsAreSpaced(zs, scale, |zs|);
    SqueezedWithDebt(zs, vs, offset, b, i);
    SqueezedWithDebt(zs, vs, offset, b, i - 1);
    assert Times(0, scale) == 0.0;
  }

  /** Compressing samples of two units or more keeps their order exactly when
      the first time stays first, which it does from 0. */
  lemma CompressKeepsOrder(ts: seq<int>, us: seq<int>, offset: int, b: nat)
    requires Compressible(ts, offset) && GapsAtLeast(ts, 2) && Compressed(ts, us, offset, b)
    ensures StrictlyIncreasing(us) <==> FirstStays(ts, offset)
    ensures ts[0] == 0 ==> FirstStays(ts, offset)
    ensures us[0] == ts[0] && forall i :: 0 <= i < |ts| ==> us[i] <= ts[i]
  {
    var scale := CompressScale(ts[1], offset);
    CompressScaleBounds(ts[1], offset);
    TwoUnitsStayOrdered(ts, offset);
    CompressKeepsOrderIff(ts, us, offset, b);
    forall i | 0 <= i < |ts|
      ensures us[i] <= ts[i]
    {
      NeverRaised(ts, us, offset, b, i);
    }
  }

  lemma TwoUnitsStayOrdered(ts: seq<int>, offset: int)
    requires Compressible(ts, offset) && GapsAtLeast(ts, 2)
    ensures StaysOrdered(ts, offset) <==> FirstStays(ts, offset)
    ensures ts[0] == 0 ==> FirstStays(ts, offset)
  {
    var scale := CompressScale(ts[1], offset);
    CompressScaleBounds(ts[1], offset);
    TimesBounds(ts[1], scale);
    TwoUnitsAreSpaced(Grounded(ts), scale, |ts|);
  }

  /** When no gap from the second time on is smaller than that time, no sample
      loses more than `offset`. */
  lemma CompressLosesAtMostOffset(ts: seq<int>, us: seq<int>, offset: int, b: nat)
    requires Compressible(ts, offset) && GapsAtLeast(ts, 2) && Compressed(ts, us, offset, b)
    requires GapsAtLeast(Grounded(ts), ts[1])
    ensures forall i :: 0 <= i < |ts| ==> ts[i] - offset <= us[i]
  {
    forall i | 1 <= i < b
      ensures ts[i] - offset <= us[i]
    {
      NonNegativeTimes(Grounded(ts), i - 1);
      CompressScaleBounds(ts[1], offset);
      SqueezedAt(ts, us, offset, b, i);
      TimesStep(Grounded(ts)[i - 1], ts[1], ts[i], CompressScale(ts[1], offset));
    }
  }

  /** A timeline that starts late is put out of order, though its samples last
      forty units: the loop begins as if it started at 0. */
  lemma LateStartLosesOrder() returns (ts: seq<int>, us: seq<int>)
    ensures ts == [100, 140, 180] && us == [100, 82, 105]
    ensures Compressible(ts, 100) && Compressed(ts, us, 100, 3) && !StrictlyIncreasing(us)
    ensures !FirstStays(ts, 100)
  {
    ts, us := [100, 140, 180], [100, 82, 105];
    var scale := CompressScale(140, 100);
    QuotientCompare(140.0, 240.0, 0.5);
    assert scale * 240.0 == 140.0;
    TimesIsProduct(140, scale);
    TimesIsProduct(180, scale);
    assert us[0] > us[1];
  }

  lemma AtTheBreak(ts: seq<int>, us: seq<int>, offset: int, b: nat)
    requires |ts| >= 2 && ts[0] == 0 && ts[1] > 0 && offset >= 0 && Compressed(ts, us, offset, b) && b < |ts|
    ensures us[b - 1] < us[b]
  {
    CompressScaleBounds(ts[1], offset);
    TimesBounds(ts[1], CompressScale(ts[1], offset));
    assert b > 1 ==> Prev(us, b) == us[b - 1];
  }

  /** The first collision that comes while a unit is owed. */
  lemma {:induction false} FirstBreach(ts: seq<int>, scale: real, n: nat) returns (i: nat)
    requires n <= |ts| && !Spaced(ts, scale, n)
    ensures 1 <= i < n && Spaced(ts, scale, i) && Collides(ts, scale, i) && Owes(ts, scale, i - 1)
  {
    if Spaced(ts, scale, n - 1) {
      i := n - 1;
    } else {
      i := FirstBreach(ts, scale, n - 1);
    }
  }

  /** Samples that last a single unit can be squeezed out of order: the
      increment that keeps equal neighbours apart catches up with the next. */
  lemma SingleUnitsLoseOrder() returns (ts: seq<int>, us: seq<int>)
    ensures |ts| == 5 && ts[0] == 0 && GapsAtLeast(ts, 1)
    ensures Compressed(ts, us, 10, 5) && !StrictlyIncreasing(us)
  {
    ts, us := [0, 1, 2, 3, 4], [0, 1, 2, 3, 2];
    QuotientCompare(1.0, 11.0, 0.5);
    assert CompressScale(1, 10) == 0.5;
    HalfOf(1);
    HalfOf(2);
    HalfOf(3);
    HalfOf(4);
    assert us[3] > us[4];
  }

  lemma HalfOf(t: nat)
    ensures Times(t, 0.5) == t as real / 2.0
  {
    TimesIsProduct(t, 0.5);
  }

  // ---- Delay ----

  /** The scale tried with a given factor. */
  function StretchAt(offset: int, off: int, k: int): real
    requires k > 0 && off != 0
  {
    (offset as real / k as real + off as real) / off as real
  }

  lemma StretchAtLeastOne(offset: int, off: int, k: int)
    requires k > 0 && offset >= 0 && off > 0
    ensures StretchAt(offset, off, k) >= 1.0
  {
    QuotientCompare(offset as real, k as real, 0.0);
    QuotientCompare(offset as real / k as real + off as real, off as real, 1.0);
  }

  /** A factor that is at least the offset is large enough. */
  lemma StretchSettles(offset: int, off: int, k: int)
    requires k > 0 && 0 <= offset <= k && off > 0
    ensures StretchAt(offset, off, k) <= 4.0
  {
    QuotientCompare(offset as real, k as real, 1.0);
    QuotientCompare(offset as real / k as real + off as real, off as real, 2.0);
  }

  /** The factor the scale search settles on: the first from `k` on that
      stretches the first sample at most fourfold. */
  function DelayFactor(offset: int, off: int, k: int): (f: int)
    requires k >= 2 && offset >= 0 && off > 0
    ensures f >= k && StretchAt(offset, off, f) <= 4.0
    ensures forall j :: k <= j < f ==> StretchAt(offset, off, j) > 4.0
    decreases offset - k
  {
    if StretchAt(offset, off, k) > 4.0 then
      (if k >= offset then StretchSettles(offset, off, k); k else DelayFactor(offset, off, k + 1))
    else k
  }

  function DelayScale(offset: int, off: int): (scale: real)
    requires offset >= 0 && off > 0
    ensures 1.0 <= scale <= 4.0
  {
    var f := DelayFactor(offset, off, 2);
    StretchAtLeastOne(offset, off, f);
    StretchAt(offset, off, f)
  }

  /** The scale is the last of the stretches tried: what the second time grows
      to when the offset is divided by 2, 3, and so on, over what it was, up to
      the first stretch that is at most fourfold. */
  lemma DelayScaleIsTried(offset: int, off: int) returns (tries: seq<real>)
    requires offset >= 0 && off > 0
    ensures tries != [] && tries[|tries| - 1] == DelayScale(offset, off) <= 4.0
    ensures forall k :: 0 <= k < |tries| ==> tries[k] == (offset as real / (k + 2) as real + off as real) / off as real
    ensures forall k :: 0 <= k < |tries| - 1 ==> tries[k] > 4.0
    ensures (offset as real / 2.0 + off as real) / off as real <= 4.0 ==>
              DelayScale(offset, off) == (offset as real / 2.0 + off as real) / off as real
  {
    var f := DelayFactor(offset, off, 2);
    tries := seq(f - 1, k requires 0 <= k < f - 1 => StretchAt(offset, off, k + 2));
    assert StretchAt(offset, off, 2) == (offset as real / 2.0 + off as real) / off as real;
  }

  /** `us` is `ts` delayed by `offset`: stretched below the break `b`,
      shifted from the break on. */
  ghost predicate Delayed(ts: seq<int>, us: seq<int>, offset: int, b: nat)
    requires |ts| >= 2 && offset >= 0 && ts[1] > 0
  {
    var scale := DelayScale(offset, ts[1]);
    && |us| == |ts| && us[0] == ts[0]
    && 1 <= b <= |ts|
    && (forall i :: 1 <= i < b ==> us[i] == Scaled(ts[i], scale) < ts[i] + offset)
    && (b < |ts| ==> Scaled(ts[b], scale) >= ts[b] + offset)
    && (forall i :: b <= i < |ts| ==> us[i] == ts[i] + offset)
  }

  /** What delaying comes to in plain numbers, `xs` being the times multiplied
      by the scale: they are rounded below the break, which delays by less than
      `offset`; from the break on `offset` is added. */
  lemma DelayedIs(ts: seq<int>, us: seq<int>, offset: int, b: nat) returns (scale: real, xs: seq<real>)
    requires |ts| >= 2 && offset >= 0 && ts[1] > 0 && Delayed(ts, us, offset, b)
    ensures scale == DelayScale(offset, ts[1])
    ensures |xs| == |ts| && forall i :: 0 <= i < |ts| ==> xs[i] == ts[i] as real * scale
    ensures |us| == |ts| && us[0] == ts[0] && 1 <= b <= |ts|
    ensures forall i :: 1 <= i < b ==> us[i] == (xs[i] + 0.5).Floor < ts[i] + offset
    ensures b < |ts| ==> (xs[b] + 0.5).Floor >= ts[b] + offset
    ensures forall i :: b <= i < |ts| ==> us[i] == ts[i] + offset
  {
    scale := DelayScale(offset, ts[1]);
    xs := Products(ts, scale);
  }

  /** A tenth of a second at 24000 units, for samples that last 1000. */
  lemma DelayedByTenth(us: seq<int>, b: nat)
    requires Delayed([0, 1000, 2000, 3000, 4000], us, 2400, b)
    ensures us == [0, 2200, 4400, 5400, 6400]
  {
    var scale, xs := DelayedIs([0, 1000, 2000, 3000, 4000], us, 2400, b);
    var tries := DelayScaleIsTried(2400, 1000);
    assert scale == 2.2;
  }

  /** The same delay, for such samples that start later. */
  lemma DelayedLater(us: seq<int>, b: nat)
    requires Delayed([1000, 2000, 3000, 4000, 5000], us, 2400, b)
    ensures us == [1000, 3200, 4800, 6400, 7400]
  {
    var scale, xs := DelayedIs([1000, 2000, 3000, 4000, 5000], us, 2400, b);
    var tries := DelayScaleIsTried(2400, 2000);
    assert scale == 1.6;
  }

  /** The timeline while it is being stretched, before index `n`. */
  ghost predicate Stretching(ts: seq<int>, us: seq<int>, offset: int, scale: real, n: nat) {
    && |us| == |ts| && 1 <= n <= |ts| && us[0] == ts[0]
    && (forall i :: 1 <= i < n ==> us[i] == Scaled(ts[i], scale) < ts[i] + offset)
    && (forall i :: n <= i < |ts| ==> us[i] == ts[i])
  }

  /** Stretching moves forward by at least as much, and never before the
      original. */
  lemma StretchStep(s: nat, t: nat, scale: real)
    requires s < t && 1.0 <= scale
    ensures Scaled(s, scale) + 1 <= Scaled(t, scale) && s <= Scaled(s, scale)
  {
    TimesStep(s, 1, t, scale);
    TimesBounds(1, scale);
    TimesBounds(s, scale);
  }

  /** Delaying keeps the order of the timeline, never advances a sample and
      delays none by more than `offset`. */
  lemma DelayKeepsOrder(ts: seq<int>, us: seq<int>, offset: int, b: nat)
    requires |ts| >= 2 && ts[0] >= 0 && GapsAtLeast(ts, 1) && offset >= 0
    requires Delayed(ts, us, offset, b)
    ensures StrictlyIncreasing(us) && us[0] == ts[0]
    ensures forall i :: 0 <= i < |ts| ==> ts[i] <= us[i] <= ts[i] + offset
  {
    var scale := DelayScale(offset, ts[1]);
    forall i | 1 <= i < |us|
      ensures us[i - 1] + 1 <= us[i] && ts[i] <= us[i] <= ts[i] + offset
    {
      NonNegativeTimes(ts, i - 1);
      StretchStep(ts[i - 1], ts[i], scale);
      StretchStep(ts[i], ts[i] + 1, scale);
    }
    IncreasingSteps(us);
  }

  /** Delaying does not bring neighbours closer together. */
  lemma DelayKeepsGaps(ts: seq<int>, us: seq<int>, offset: int, b: nat, d: nat)
    requires |ts| >= 2 && ts[0] >= 0 && GapsAtLeast(ts, d) && d > 0 && offset >= 0
    requires Delayed(ts, us, offset, b)
    ensures GapsAtLeast(us, d)
  {
    var scale := DelayScale(offset, ts[1]);
    forall i | 1 <= i < |us|
      ensures us[i - 1] + d <= us[i]
    {
      NonNegativeTimes(ts, i - 1);
      TimesStep(ts[i - 1], d, ts[i], scale);
      TimesBounds(d, scale);
      TimesBounds(ts[i - 1], scale);
    }
  }
}
