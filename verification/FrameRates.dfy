/** Frame-rate ranges, the time scale that represents them exactly and the
    sample times they stand for (SetFPS and its helpers in src/mp4trackx.cpp). */
module FrameRates {
  import opened Wrappers
  import opened Numbers
  import opened RunTables
  import opened TimeBend

  datatype FpsRange = FpsRange(numFrames: nat, num: int, denom: int)

  const INT_MAX: int := 0x7fff_ffff

  /** The rates a caller gives: positive 32-bit integers. */
  predicate Rates(ranges: seq<FpsRange>) {
    forall r :: r in ranges ==> 0 < r.num <= INT_MAX && 0 < r.denom <= INT_MAX
  }

  // ---- Frame counts ----

  function TotalFrames(ranges: seq<FpsRange>): nat {
    if ranges == [] then 0 else TotalFrames(ranges[..|ranges| - 1]) + ranges[|ranges| - 1].numFrames
  }

  /** A range without a frame count is given what the ranges before it leave. */
  function Allot(r: FpsRange, total: nat, frames: nat): FpsRange {
    if r.numFrames > 0 then r else r.(numFrames := if frames - total > 0 then frames - total else 0)
  }

  function Fill(given: seq<FpsRange>, frames: nat): (ranges: seq<FpsRange>)
    ensures |ranges| == |given|
    ensures Rates(given) ==> Rates(ranges)
  {
    if given == [] then []
    else
      var m := |given| - 1;
      var front := Fill(given[..m], frames);
      front + [Allot(given[m], TotalFrames(front), frames)]
  }

  lemma FillSnoc(given: seq<FpsRange>, i: nat, frames: nat)
    requires i < |given|
    ensures var front := Fill(given[..i], frames);
            var r := Allot(given[i], TotalFrames(front), frames);
            && Fill(given[..i + 1], frames) == front + [r]
            && TotalFrames(front + [r]) == TotalFrames(front) + r.numFrames
  {
    assert given[..i + 1][..i] == given[..i];
    var front := Fill(given[..i], frames);
    var r := Fill(given[..i + 1], frames)[i];
    assert (front + [r])[..i] == front;
  }

  lemma UpdateSplit<T>(s: seq<T>, i: nat, x: T)
    requires i < |s|
    ensures s[i := x][..i + 1] == s[..i] + [x] && s[i := x][i + 1..] == s[i..][1..] && s[i] == s[i..][0]
  {}

  method NormalizeFPSRange(given: seq<FpsRange>, frames: nat) returns (r: Option<seq<FpsRange>>)
    ensures r == if TotalFrames(Fill(given, frames)) == frames then Some(Fill(given, frames)) else None
  {
    var ranges := given;
    var total := 0;
    for i := 0 to |given|
      invariant |ranges| == |given|
      invariant ranges[..i] == Fill(given[..i], frames) && ranges[i..] == given[i..]
      invariant total == TotalFrames(Fill(given[..i], frames))
    {
      FillSnoc(given, i, frames);
      var fp := Allot(ranges[i], total, frames);
      UpdateSplit(ranges, i, fp);
      UpdateSplit(given, i, fp);
      total := total + fp.numFrames;
      ranges := ranges[i := fp];
    }
    assert given[..|given|] == given && ranges[..|given|] == ranges;
    r := if total != frames then None else Some(ranges);
  }

  /** An open range after counted ones stands for the rest of the movie: the
      counts are kept, and accepted exactly when they fit. */
  lemma OpenRangeTakesTheRest(counted: seq<FpsRange>, open: FpsRange, frames: nat)
    requires open.numFrames == 0 && forall r :: r in counted ==> r.numFrames > 0
    ensures var ranges := Fill(counted + [open], frames);
            && ranges[..|counted|] == counted
            && (TotalFrames(ranges) == frames <==> TotalFrames(counted) <= frames)
  {
    assert (counted + [open])[..|counted|] == counted;
    CountedRangesStay(counted, frames);
  }

  lemma {:induction false} CountedRangesStay(given: seq<FpsRange>, frames: nat)
    requires forall r :: r in given ==> r.numFrames > 0
    ensures Fill(given, frames) == given
  {
    if given != [] {
      var m := |given| - 1;
      CountedRangesStay(given[..m], frames);
      assert given[m] in given;
    }
  }

  // ---- Time scale ----

  /** Quotient and remainder truncated towards zero. */
  function CDiv(a: int, b: int): int
    requires b != 0
  {
    var q := (if a < 0 then -a else a) / (if b < 0 then -b else b);
    if (a < 0) == (b < 0) then q else -q
  }

  function CRem(a: int, b: int): (r: int)
    requires b != 0
    ensures -(if b < 0 then -b else b) < r < (if b < 0 then -b else b)
    ensures a >= 0 && b > 0 ==> r == a % b
  {
    var m := (if a < 0 then -a else a) % (if b < 0 then -b else b);
    if a < 0 then -m else m
  }

  /** The editor's gcd and lcm on 32-bit integers; the product may wrap. */
  function CGcd(a: int, b: int): (g: int)
    ensures a >= 0 && b >= 0 ==> g == Gcd(a, b)
    ensures a != 0 || b != 0 ==> g != 0
    decreases if b < 0 then -b else b
  {
    if b == 0 then a else CGcd(b, CRem(a, b))
  }

  function CLcm(a: int, b: int): int
    requires a > 0
  {
    Int32(b * CDiv(a, CGcd(a, b)))
  }

  /** A rate in lowest terms. */
  function Reduced(r: FpsRange): FpsRange
    requires r.num > 0 && r.denom > 0
  {
    r.(num := r.num / Gcd(r.num, r.denom), denom := r.denom / Gcd(r.num, r.denom))
  }

  lemma ReducedIsRate(r: FpsRange)
    requires 0 < r.num <= INT_MAX && 0 < r.denom <= INT_MAX
    ensures 0 < Reduced(r).num <= INT_MAX && 0 < Reduced(r).denom <= INT_MAX
    ensures r.num == Gcd(r.num, r.denom) * Reduced(r).num && r.denom == Gcd(r.num, r.denom) * Reduced(r).denom
  {
    var x, y := GcdDivides(r.num, r.denom);
    var g := Gcd(r.num, r.denom);
    MultipleDivides(g, x);
    MultipleDivides(g, y);
    MulStrict(x, 0, g);
    MulStrict(y, 0, g);
  }

  /** The least common multiple: a multiple of both arguments that divides
      every other one. */
  lemma LcmMultiple(a: int, b: int) returns (x: int, y: int)
    requires a > 0 && b > 0
    ensures Lcm(a, b) == b * x == a * y && x > 0 && y > 0
    ensures Lcm(a, b) >= b
  {
    x, y := GcdDivides(a, b);
    var g := Gcd(a, b);
    MultipleDivides(g, x);
    Associate(g, y, x);
    MulStrict(g, 0, x);
    MulStrict(g, 0, y);
    MulStrict(b, 1, x);
  }

  lemma LcmPositive(a: int, b: int)
    requires a > 0 && b > 0
    ensures Lcm(a, b) >= b
  {
    var x, y := LcmMultiple(a, b);
  }

  lemma Cancel(g: int, a: int, b: int)
    requires g > 0 && g * a == g * b
    ensures a == b
  {
    Distribute(g, a, b);
    SmallMultiple(g, a - b);
  }

  /** With `x` and `y` coprime, `x * p == y * q` makes `p` a multiple of `y`. */
  lemma CoprimeFactor(x: int, y: int, u: int, v: int, p: int, q: int)
    requires u * x + v * y == 1 && x * p == y * q
    ensures p == y * (u * q + v * p)
  {
    Distribute(p, u * x, v * y);
    Associate(u, x, p);
    Associate(u, y, q);
    Associate(v, y, p);
    Distribute(y, u * q, v * p);
  }

  /** Two numbers divided by their gcd, with coefficients that make them
      coprime. */
  lemma ReducedPair(a: int, b: int) returns (g: int, x: int, y: int, u: int, v: int)
    requires a > 0 && b > 0
    ensures g == Gcd(a, b) > 0 && a == g * x && b == g * y && u * x + v * y == 1
  {
    g := Gcd(a, b);
    x, y := GcdDivides(a, b);
    u, v := Bezout(a, b);
    Associate(u, g, x);
    Associate(v, g, y);
    Distribute(g, u * x, v * y);
    Cancel(g, u * x + v * y, 1);
  }

  /** A common multiple of `g * x` and `g * y` is one of `g * x * y`. */
  lemma CommonMultiple(g: int, x: int, y: int, u: int, v: int, p: int, q: int) returns (k: int)
    requires g > 0 && u * x + v * y == 1 && g * x * p == g * y * q
    ensures g * x * p == g * y * x * k
  {
    Associate(g, x, p);
    Associate(g, y, q);
    Cancel(g, x * p, y * q);
    k := u * q + v * p;
    CoprimeFactor(x, y, u, v, p, q);
    assert p == y * k;
    Associate(x, y, k);
    Associate(g, y, x * k);
    Associate(g * y, x, k);
  }

  lemma LcmLeast(a: int, b: int, m: int)
    requires a > 0 && b > 0 && m % a == 0 && m % b == 0
    ensures Lcm(a, b) > 0 && m % Lcm(a, b) == 0
  {
    LcmPositive(a, b);
    var g, x, y, u, v := ReducedPair(a, b);
    MultipleDivides(g, x);
    var k := CommonMultiple(g, x, y, u, v, m / a, m / b);
    ShiftClass(m, 0, Lcm(a, b), k);
  }

  /** The least common multiple of the numerators, all in lowest terms. */
  function CommonScale(ranges: seq<FpsRange>): (m: int)
    requires Rates(ranges)
    ensures m > 0
  {
    if ranges == [] then 1
    else
      var last := ranges[|ranges| - 1];
      ReducedIsRate(last);
      var front := CommonScale(ranges[..|ranges| - 1]);
      LcmPositive(Reduced(last).num, front);
      Lcm(Reduced(last).num, front)
  }

  function MinDenom(ranges: seq<FpsRange>): (d: int)
    requires Rates(ranges)
    ensures 0 < d <= INT_MAX
  {
    if ranges == [] then INT_MAX
    else
      var last := Reduced(ranges[|ranges| - 1]);
      ReducedIsRate(ranges[|ranges| - 1]);
      var front := MinDenom(ranges[..|ranges| - 1]);
      if last.denom < front then last.denom else front
  }

  /** It is the least denominator in lowest terms. */
  lemma {:induction false} MinDenomIs(ranges: seq<FpsRange>)
    requires Rates(ranges)
    ensures forall i :: 0 <= i < |ranges| ==> MinDenom(ranges) <= LowestDenom(ranges[i])
    ensures ranges == [] || exists i :: 0 <= i < |ranges| && MinDenom(ranges) == LowestDenom(ranges[i])
  {
    if ranges != [] {
      var m := |ranges| - 1;
      MinDenomIs(ranges[..m]);
      ReducedIsRate(ranges[m]);
      assert forall i :: 0 <= i < m ==> ranges[..m][i] == ranges[i];
      if m > 0 && MinDenom(ranges) != LowestDenom(ranges[m]) {
        var i :| 0 <= i < m && MinDenom(ranges[..m]) == LowestDenom(ranges[..m][i]);
        assert MinDenom(ranges) == LowestDenom(ranges[i]);
      }
    }
  }

  function LowestDenom(r: FpsRange): int {
    if r.num > 0 && r.denom > 0 then r.denom / Gcd(r.num, r.denom) else 0
  }

  /** Small denominators call for a finer scale: at least 100 units a frame of
      the slowest rate, rounded down. */
  function Boost(scale: int, minDenom: int): int
    requires scale > 0 && minDenom > 0
  {
    if minDenom < 100 then scale * 100 / minDenom else scale
  }

  /** What the automatic time scale is meant to represent. */
  predicate Represents(scale: int, ranges: seq<FpsRange>)
    requires Rates(ranges)
  {
    forall i :: 0 <= i < |ranges| ==> (ReducedIsRate(ranges[i]); scale % Reduced(ranges[i]).num == 0)
  }

  lemma MultipleOfLcm(a: int, b: int, s: int)
    requires a > 0 && b > 0
    ensures Lcm(a, b) > 0
    ensures s % Lcm(a, b) == 0 <==> s % a == 0 && s % b == 0
  {
    var x, y := LcmMultiple(a, b);
    if s % a == 0 && s % b == 0 {
      LcmLeast(a, b, s);
    }
    var l := Lcm(a, b);
    if s % l == 0 {
      var k := s / l;
      Associate(a, y, k);
      Associate(b, x, k);
      ShiftClass(s, 0, a, y * k);
      ShiftClass(s, 0, b, x * k);
    }
  }

  /** A scale is a multiple of every numerator exactly when it is a multiple
      of their least common multiple. */
  lemma {:induction false} RepresentsIff(scale: int, ranges: seq<FpsRange>)
    requires Rates(ranges)
    ensures Represents(scale, ranges) <==> scale % CommonScale(ranges) == 0
  {
    if ranges != [] {
      var m := |ranges| - 1;
      var front := ranges[..m];
      RepresentsIff(scale, front);
      ReducedIsRate(ranges[m]);
      MultipleOfLcm(Reduced(ranges[m]).num, CommonScale(front), scale);
      assert Represents(scale, ranges) <==> Represents(scale, front) && scale % Reduced(ranges[m]).num == 0;
    }
  }

  /** Boosting adds `m * e / d`, less than one multiple of `m`, to `m * q`. */
  lemma BoostSplit(m: int, d: int, q: int, e: int)
    requires m > 0 && d > 0 && 0 <= e < d && d * q + e == 100
    ensures m * 100 / d == m * q + e * m / d
    ensures (m * 100 / d) % m == 0 <==> e * m / d == 0
    ensures e * m / d == 0 <==> e * m < d
  {
    var r := e * m / d;
    assert e * m == d * r + e * m % d;
    NonNegative(e, m);
    Distribute(m, d * q, e);
    Associate(d, q, m);
    Associate(m, d, q);
    Distribute(d, m * q, r);
    DivModUnique(m * 100, d, m * q + r, e * m % d);
    assert r < m by {
      MulStrict(m, e, d);
      MulStrict(d, m, r);
    }
    assert r >= 0 by { MulStrict(d, r, -1); }
    DivModUnique(m * q + r, m, q, r);
    if e * m < d { DivModUnique(e * m, d, 0, e * m); }
  }

  lemma BoostMultipleIff(m: int, d: int)
    requires m > 0 && d > 0
    ensures Boost(m, d) % m == 0 <==> d >= 100 || 100 % d * m < d
  {
    if d < 100 {
      BoostSplit(m, d, 100 / d, 100 % d);
    } else {
      ShiftClass(m, 0, m, 1);
    }
  }

  /** The boosted scale still represents every rate exactly when the smallest
      denominator divides 100 closely enough. */
  lemma BoostExactIff(ranges: seq<FpsRange>)
    requires Rates(ranges)
    ensures var m, d := CommonScale(ranges), MinDenom(ranges);
            Represents(Boost(m, d), ranges) <==> d >= 100 || 100 % d * m < d
  {
    RepresentsIff(Boost(CommonScale(ranges), MinDenom(ranges)), ranges);
    BoostMultipleIff(CommonScale(ranges), MinDenom(ranges));
  }

  /** Thirty frames in seven seconds: refining the scale loses them. */
  lemma RefiningLosesExactness() returns (ranges: seq<FpsRange>)
    ensures |ranges| == 1 && ranges[0].num == 30 && ranges[0].denom == 7
    ensures Rates(ranges) && NoOverflow(ranges)
    ensures !Represents(Boost(CommonScale(ranges), MinDenom(ranges)), ranges)
  {
    var r := FpsRange(1, 30, 7);
    ranges := [r];
    assert Gcd(7, 2) == Gcd(2, 1) == Gcd(1, 0) == 1;
    assert Gcd(30, 7) == Gcd(7, 2) && Gcd(30, 1) == Gcd(1, 0);
    assert Reduced(r) == r && ranges[..0] == [];
    assert CommonScale(ranges) == Lcm(30, CommonScale([])) == 30;
    assert MinDenom(ranges) == 7;
    BoostExactIff(ranges);
  }

  // ---- Choosing the time scale ----

  function ReducedAll(ranges: seq<FpsRange>): (r: seq<FpsRange>)
    requires Rates(ranges)
    ensures |r| == |ranges| && forall i :: 0 <= i < |r| ==> r[i] == Reduced(ranges[i])
  {
    seq(|ranges|, i requires 0 <= i < |ranges| => Reduced(ranges[i]))
  }

  /** Everything the search computes fits a 32-bit integer. */
  predicate NoOverflow(ranges: seq<FpsRange>)
    requires Rates(ranges)
  {
    Boost(CommonScale(ranges), MinDenom(ranges)) <= INT_MAX
  }

  lemma BoostGrows(m: int, d: int)
    requires m > 0 && d > 0
    ensures Boost(m, d) >= m
  {
    if d < 100 {
      MulStrict(m, d, 100);
      var r := m * 100;
      assert r == d * (r / d) + r % d;
      MulStrict(d, r / d + 1, m);
    }
  }

  lemma {:induction false} PrefixFits(ranges: seq<FpsRange>, i: nat)
    requires Rates(ranges) && i <= |ranges|
    ensures Rates(ranges[..i]) && CommonScale(ranges[..i]) <= CommonScale(ranges)
    decreases |ranges|
  {
    if i < |ranges| {
      var m := |ranges| - 1;
      PrefixFits(ranges[..m], i);
      assert ranges[..m][..i] == ranges[..i];
      ReducedIsRate(ranges[m]);
      LcmPositive(Reduced(ranges[m]).num, CommonScale(ranges[..m]));
    } else {
      assert ranges[..i] == ranges;
    }
  }

  /** What the search has in place of the least common multiple: a product may
      wrap at 32 bits. */
  function Wrapping(ranges: seq<FpsRange>): int
    requires Rates(ranges)
  {
    if ranges == [] then 1
    else
      ReducedIsRate(ranges[|ranges| - 1]);
      CLcm(Reduced(ranges[|ranges| - 1]).num, Wrapping(ranges[..|ranges| - 1]))
  }

  /** After `k` rates the search notices that it has lost the multiple: what it
      has is zero, or no multiple of the last numerator. */
  predicate Lost(ranges: seq<FpsRange>, k: nat)
    requires Rates(ranges) && 1 <= k <= |ranges|
  {
    ReducedIsRate(ranges[k - 1]);
    Wrapping(ranges[..k]) == 0 || CRem(Wrapping(ranges[..k]), Reduced(ranges[k - 1]).num) != 0
  }

  predicate Noticed(ranges: seq<FpsRange>)
    requires Rates(ranges)
  {
    exists k {:trigger Lost(ranges, k)} :: 1 <= k <= |ranges| && Lost(ranges, k)
  }

  /** The automatic scale: 1000 if an overflow is noticed. */
  function AutoScale(ranges: seq<FpsRange>): int
    requires Rates(ranges)
  {
    PickScale(!Noticed(ranges), Wrapping(ranges), MinDenom(ranges))
  }

  /** One step of the search. */
  lemma SearchStep(ranges: seq<FpsRange>, i: nat)
    requires Rates(ranges) && i < |ranges|
    ensures Rates(ranges[..i]) && Rates(ranges[..i + 1])
    ensures var r, g := Reduced(ranges[i]), CGcd(ranges[i].num, ranges[i].denom);
            && g != 0 && r == ranges[i].(num := ranges[i].num / g, denom := ranges[i].denom / g)
            && r.num > 0 && r.denom > 0
            && MinDenom(ranges[..i + 1]) == (if r.denom < MinDenom(ranges[..i]) then r.denom else MinDenom(ranges[..i]))
            && Wrapping(ranges[..i + 1]) == CLcm(r.num, Wrapping(ranges[..i]))
            && (Lost(ranges, i + 1) <==> Wrapping(ranges[..i + 1]) == 0 || CRem(Wrapping(ranges[..i + 1]), r.num) != 0)
  {
    assert ranges[..i + 1][..i] == ranges[..i];
    ReducedIsRate(ranges[i]);
  }

  /** Without an overflow the search has the least common multiple. */
  lemma {:induction false} NothingLost(ranges: seq<FpsRange>, i: nat)
    requires Rates(ranges) && NoOverflow(ranges) && i <= |ranges|
    ensures Rates(ranges[..i]) && Wrapping(ranges[..i]) == CommonScale(ranges[..i])
    ensures i > 0 ==> !Lost(ranges, i)
  {
    if i > 0 {
      NothingLost(ranges, i - 1);
      SearchStep(ranges, i - 1);
      ExactStep(ranges, i - 1);
    }
  }

  lemma ExactStep(ranges: seq<FpsRange>, i: nat)
    requires Rates(ranges) && NoOverflow(ranges) && i < |ranges| && Rates(ranges[..i]) && Rates(ranges[..i + 1])
    ensures Reduced(ranges[i]).num > 0
    ensures var m := CLcm(Reduced(ranges[i]).num, CommonScale(ranges[..i]));
            m == CommonScale(ranges[..i + 1]) && m != 0 && CRem(m, Reduced(ranges[i]).num) == 0
  {
    assert ranges[..i + 1][..i] == ranges[..i];
    ReducedIsRate(ranges[i]);
    var a, b := Reduced(ranges[i]).num, CommonScale(ranges[..i]);
    var x, y := LcmMultiple(a, b);
    ShiftClass(a * y, 0, a, y);
    PrefixFits(ranges, i + 1);
    BoostGrows(CommonScale(ranges), MinDenom(ranges));
    WordIdentity(Lcm(a, b));
  }

  /** Without an overflow the automatic scale is the boosted least common
      multiple of the numerators. */
  lemma AutoScaleExact(ranges: seq<FpsRange>)
    requires Rates(ranges) && NoOverflow(ranges)
    ensures !Noticed(ranges) && AutoScale(ranges) == Boost(CommonScale(ranges), MinDenom(ranges))
  {
    forall k | 1 <= k <= |ranges|
      ensures !Lost(ranges, k)
    {
      NothingLost(ranges, k);
    }
    NothingLost(ranges, |ranges|);
    assert ranges[..|ranges|] == ranges;
    PickExact(Wrapping(ranges), MinDenom(ranges));
  }

  /** Not every overflow is noticed: a wrapped product of a power of two is
      still a multiple of it. */
  lemma OverflowUnnoticed() returns (ranges: seq<FpsRange>)
    ensures |ranges| == 2 && Rates(ranges) && !Noticed(ranges) && Wrapping(ranges) == -0x4000_0000
    ensures !NoOverflow(ranges) && !Represents(AutoScale(ranges), ranges)
  {
    var r, t := FpsRange(1, 7, 101), FpsRange(1, 0x4000_0000, 101);
    ranges := [r, t];
    PowerSearch(ranges, r, t);
    assert !Noticed(ranges);
    assert AutoScale(ranges) == 0xC000_0000 && AutoScale(ranges) % 7 != 0;
    PowerRate(r, t);
    assert Reduced(ranges[0]).num == 7;
    assert ranges[..2] == ranges;
    if NoOverflow(ranges) { NothingLost(ranges, 2); }
  }

  lemma PowerSearch(ranges: seq<FpsRange>, r: FpsRange, t: FpsRange)
    requires r == FpsRange(1, 7, 101) && t == FpsRange(1, 0x4000_0000, 101) && ranges == [r, t]
    ensures Rates(ranges) && Wrapping(ranges) == -0x4000_0000 && MinDenom(ranges) == 101
    ensures !Lost(ranges, 1) && !Lost(ranges, 2)
  {
    PowerRate(r, t);
    var front := [r];
    assert ranges[..1] == front && ranges[..2] == ranges && front[..0] == [];
    assert CGcd(7, 1) == CGcd(1, 0) == 1;
    assert Wrapping(front) == CLcm(7, Wrapping([])) == 7 && MinDenom(front) == 101;
    assert Wrapping(ranges) == CLcm(0x4000_0000, 7) == -0x4000_0000;
  }

  lemma PowerRate(r: FpsRange, t: FpsRange)
    requires r == FpsRange(1, 7, 101) && t == FpsRange(1, 0x4000_0000, 101)
    ensures Reduced(r) == r && Reduced(t) == t && CGcd(0x4000_0000, 7) == 1
  {
    assert Gcd(7, 101) == Gcd(101, 7) == Gcd(7, 3) == Gcd(3, 1) == Gcd(1, 0) == 1;
    assert Gcd(0x4000_0000, 101) == Gcd(101, 17) == Gcd(17, 16) == Gcd(16, 1) == Gcd(1, 0);
    assert Gcd(0x4000_0000, 7) == Gcd(7, 1) == Gcd(1, 0);
  }

  /** The default for an inexact scale, and a finer one for small denominators. */
  function PickScale(exact: bool, timeScale: int, minDenom: int): (scale: int)
    requires minDenom > 0
    ensures 0 <= scale < TWO32 && (!exact ==> scale == 1000)
  {
    Uint32(if !exact then 1000 else if minDenom < 100 then CDiv(timeScale * 100, minDenom) else timeScale)
  }

  lemma PickExact(m: int, d: int)
    requires m > 0 && d > 0 && Boost(m, d) <= INT_MAX
    ensures PickScale(true, m, d) == Boost(m, d)
  {
    BoostGrows(m, d);
    WordIdentity(Boost(m, d));
  }

  /** One rate of the search. */
  method CalcStep(given: seq<FpsRange>, i: nat, timeScale0: int, minDenom0: int)
    returns (fp: FpsRange, timeScale: int, minDenom: int, lost: bool)
    requires Rates(given) && i < |given| && Rates(given[..i])
    requires timeScale0 == Wrapping(given[..i]) && minDenom0 == MinDenom(given[..i])
    ensures fp == Reduced(given[i]) && Rates(given[..i + 1])
    ensures timeScale == Wrapping(given[..i + 1]) && minDenom == MinDenom(given[..i + 1])
    ensures lost == Lost(given, i + 1)
  {
    SearchStep(given, i);
    var g := CGcd(given[i].num, given[i].denom);
    fp := given[i].(num := given[i].num / g, denom := given[i].denom / g);
    minDenom := if fp.denom < minDenom0 then fp.denom else minDenom0;
    timeScale := CLcm(fp.num, timeScale0);
    lost := timeScale == 0 || CRem(timeScale, fp.num) != 0;
  }

  /** The time scale for a list of rates, which the search reduces to lowest
      terms as it goes, until it notices that a product has wrapped. */
  method CalcTimeScale(given: seq<FpsRange>) returns (scale: nat, ranges: seq<FpsRange>)
    requires Rates(given)
    ensures |ranges| == |given| && forall i :: 0 <= i < |given| ==> ranges[i] == given[i] || ranges[i] == Reduced(given[i])
    ensures scale == AutoScale(given)
    ensures !Noticed(given) ==> ranges == ReducedAll(given)
  {
    ranges := given;
    var timeScale, minDenom, exact := 1, INT_MAX, true;
    var i := 0;
    while i < |given| && exact
      invariant 0 <= i <= |given| == |ranges|
      invariant forall j :: i <= j < |given| ==> ranges[j] == given[j]
      invariant forall j :: 0 <= j < i ==> ranges[j] == Reduced(given[j])
      invariant minDenom > 0
      invariant timeScale == Wrapping(given[..i]) && minDenom == MinDenom(given[..i])
      invariant if exact then forall k :: 1 <= k <= i ==> !Lost(given, k) else i > 0 && Lost(given, i)
    {
      var fp, lost;
      fp, timeScale, minDenom, lost := CalcStep(given, i, timeScale, minDenom);
      ranges := ranges[i := fp];
      exact := !lost;
      i := i + 1;
    }
    assert given[..|given|] == given;
    scale := PickScale(exact, timeScale, minDenom);
    if exact {
      assert ranges == ReducedAll(given);
    }
  }
}
