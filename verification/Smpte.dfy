/** SMPTE timecodes: hours, minutes, seconds and frames
    (mp4v2/libutil/Timecode.cpp). */
module Smpte {
  import opened Wrappers
  import opened Numbers

  const TWO64: int := 0x1_0000_0000_0000_0000

  // ---- Mixed radix ----

  datatype Hmsf = Hmsf(hours: nat, minutes: nat, seconds: nat, subseconds: nat)

  function WholeSeconds(t: Hmsf): nat {
    t.seconds + 60 * t.minutes + 3600 * t.hours
  }

  /** The duration in frames, `n` to the second. */
  function Frames(n: nat, t: Hmsf): (d: nat)
  {
    NonNegative(n, WholeSeconds(t));
    t.subseconds + n * WholeSeconds(t)
  }

  predicate Normal(n: nat, t: Hmsf) {
    t.subseconds < n && t.seconds < 60 && t.minutes < 60
  }

  lemma SecondsUnique(n: nat, f: nat, s: nat, g: nat, u: nat)
    requires f < n && g < n && f + n * s == g + n * u
    ensures f == g && s == u
  {
    MulStrict(n, s, u);
    MulStrict(n, u, s);
  }

  lemma FieldsUnique(t: Hmsf, u: Hmsf)
    requires t.seconds < 60 && t.minutes < 60 && u.seconds < 60 && u.minutes < 60 && WholeSeconds(t) == WholeSeconds(u)
    ensures t.hours == u.hours && t.minutes == u.minutes && t.seconds == u.seconds
  {
    DivModUnique(WholeSeconds(t), 60, t.minutes + 60 * t.hours, t.seconds);
    DivModUnique(WholeSeconds(u), 60, u.minutes + 60 * u.hours, u.seconds);
  }

  /** A duration has one normal form. */
  lemma NormalIsUnique(n: nat, t: Hmsf, u: Hmsf)
    requires Normal(n, t) && Normal(n, u) && Frames(n, t) == Frames(n, u)
    ensures t == u
  {
    SecondsUnique(n, t.subseconds, WholeSeconds(t), u.subseconds, WholeSeconds(u));
    FieldsUnique(t, u);
  }

  lemma CarryFrames(n: nat, f: nat, s: nat)
    requires n > 0
    ensures var q := f / n; q >= 0 && 0 <= f - q * n < n && f - q * n + n * (s + q) == f + n * s
    ensures f < n ==> f / n == 0
  {
    var q := f / n;
    assert f == n * q + f % n;
    Distribute(n, s, q);
    MulStrict(n, q, 0);
    if f < n { DivModUnique(f, n, 0, f); }
  }

  lemma Quotient(n: nat, d: nat, bound: nat)
    requires n > 0 && d < n * bound
    ensures 0 <= d / n < bound && 0 <= d - n * (d / n) < n
  {
    assert d == n * (d / n) + d % n;
    MulStrict(n, d / n, 0);
    MulStrict(n, bound, d / n);
  }

  lemma SplitSteps(n: nat, d: nat)
    requires n > 0
    ensures n * 3600 > 0 && n * 60 > 0
    ensures var h := d / (n * 3600);
            var i := d - n * 3600 * h;
            && h >= 0 && i >= 0
            && var m := i / (n * 60);
               var j := i - n * 60 * m;
               && 0 <= m < 60 && j >= 0
               && var s := j / n;
                  && 0 <= s < 60 && 0 <= j - n * s < n
                  && j - n * s + n * (s + 60 * m + 3600 * h) == d
  {
    var p, q := n * 3600, n * 60;
    var h := d / p;
    assert d == p * h + d % p;
    MulStrict(p, h, 0);
    var i := d - p * h;
    Quotient(q, i, 60);
    var m := i / q;
    var j := i - q * m;
    Quotient(n, j, 60);
    var s := j / n;
    Distribute(n, s + 60 * m, 3600 * h);
    Distribute(n, s, 60 * m);
    Associate(n, 60, m);
    Associate(n, 3600, h);
  }

  lemma FormExists(n: nat, d: nat)
    requires n > 0
    ensures exists t :: Normal(n, t) && Frames(n, t) == d
  {
    SplitSteps(n, d);
    var h := d / (n * 3600);
    var i := d - n * 3600 * h;
    var m := i / (n * 60);
    var j := i - n * 60 * m;
    var t := Hmsf(h, m, j / n, j - n * (j / n));
    assert Normal(n, t) && Frames(n, t) == d;
  }

  /** The normal form of a duration: it exists, and is the only one. */
  ghost function NormalForm(n: nat, d: nat): (t: Hmsf)
    requires n > 0
    ensures Normal(n, t) && Frames(n, t) == d
  {
    FormExists(n, d);
    var t :| Normal(n, t) && Frames(n, t) == d;
    t
  }

  lemma FormOfNormal(n: nat, t: Hmsf)
    requires Normal(n, t)
    ensures NormalForm(n, Frames(n, t)) == t
  {
    NormalIsUnique(n, NormalForm(n, Frames(n, t)), t);
  }

  // ---- Decimal digits ----

  const DIGITS: string := "0123456789"

  predicate IsDigit(c: char) {
    '0' <= c <= '9'
  }

  function DigitValue(c: char): (d: nat)
    requires IsDigit(c)
    ensures d < 10
  {
    c as int - '0' as int
  }

  function Decimal(n: nat): (s: string)
    ensures |s| > 0
  {
    if n < 10 then [DIGITS[n]] else Decimal(n / 10) + [DIGITS[n % 10]]
  }

  /** At least `width` characters, filled up with zeros on the left. */
  function Padded(n: nat, width: nat): (s: string)
    ensures |s| >= width
  {
    var d := Decimal(n);
    (if |d| < width then seq(width - |d|, _ => '0') else "") + d
  }

  predicate AllDigits(s: string) {
    forall i :: 0 <= i < |s| ==> IsDigit(s[i])
  }

  function ValueOf(s: string): nat
    requires AllDigits(s)
  {
    if s == "" then 0 else 10 * ValueOf(s[..|s| - 1]) + DigitValue(s[|s| - 1])
  }

  lemma {:induction false} DecimalRead(n: nat)
    ensures AllDigits(Decimal(n)) && ValueOf(Decimal(n)) == n
    ensures forall k: nat :: k > 0 ==> (|Decimal(n)| <= k <==> n < Pow10(k))
  {
    if n >= 10 {
      DecimalRead(n / 10);
      assert Decimal(n)[..|Decimal(n)| - 1] == Decimal(n / 10);
      forall k: nat | k > 0
        ensures |Decimal(n)| <= k <==> n < Pow10(k)
      {
        if k > 1 {
          assert |Decimal(n / 10)| <= k - 1 <==> n / 10 < Pow10(k - 1);
        } else {
          assert Pow10(1) == 10;
        }
      }
    } else {
      forall k: nat | k > 0
        ensures n < Pow10(k)
      {
        PowAtLeastTen(k);
      }
    }
  }

  lemma {:induction false} PowAtLeastTen(k: nat)
    requires k > 0
    ensures Pow10(k) >= 10
  {
    if k > 1 { PowAtLeastTen(k - 1); } else { assert Pow10(1) == 10 * Pow10(0); }
  }

  lemma {:induction false} ZeroPrefix(k: nat, s: string)
    requires AllDigits(s)
    ensures AllDigits(seq(k, _ => '0') + s) && ValueOf(seq(k, _ => '0') + s) == ValueOf(s)
    decreases |s|, k
  {
    var z := seq(k, _ => '0');
    if s == "" {
      assert z + s == z;
      if k > 0 {
        assert z[..k - 1] == seq(k - 1, _ => '0');
        ZeroPrefix(k - 1, "");
        assert seq(k - 1, _ => '0') + "" == seq(k - 1, _ => '0');
      }
    } else {
      var m := |s| - 1;
      assert (z + s)[..k + m] == z + s[..m];
      ZeroPrefix(k, s[..m]);
    }
  }

  lemma PaddedRead(n: nat)
    ensures AllDigits(Padded(n, 2)) && ValueOf(Padded(n, 2)) == n
    ensures |Padded(n, 2)| <= 16 <==> n < Pow10(16)
  {
    DecimalRead(n);
    var d := Decimal(n);
    if |d| < 2 { ZeroPrefix(2 - |d|, d); } else { assert "" + d == d; }
    assert |d| <= 16 <==> n < Pow10(16);
  }

  // ---- Text ----

  datatype Format = Frame | DecimalFraction

  function Print(t: Hmsf): (s: string) {
    Padded(t.hours, 2) + ":" + Padded(t.minutes, 2) + ":" + Padded(t.seconds, 2) + ":" + Padded(t.subseconds, 2)
  }

  predicate IsSeparator(c: char) {
    c == ':' || c == '.'
  }

  function Separators(s: string): nat {
    if s == "" then 0 else Separators(s[..|s| - 1]) + if IsSeparator(s[|s| - 1]) then 1 else 0
  }

  /** The sections of a text between its separators. */
  function Sections(s: string): (r: seq<string>)
    ensures |r| == Separators(s) + 1
  {
    if s == "" then [""]
    else
      var front, c := Sections(s[..|s| - 1]), s[|s| - 1];
      var m := |front| - 1;
      if IsSeparator(c) then front + [""] else front[m := front[m] + [c]]
  }

  /** Timecodes that can be read: up to four sections of up to sixteen digits,
      the last of which may follow a period. */
  predicate Readable(s: string) {
    && (forall i :: 0 <= i < |s| ==> IsDigit(s[i]) || IsSeparator(s[i]))
    && (forall i :: 0 <= i < |s| && s[i] == '.' ==> Separators(s[..i + 1]) == Separators(s))
    && Separators(s) <= 3
    && (forall k :: 0 <= k < |Sections(s)| ==> |Sections(s)[k]| <= 16)
  }

  lemma {:induction false} SectionsAreDigits(s: string)
    requires forall i :: 0 <= i < |s| ==> IsDigit(s[i]) || IsSeparator(s[i])
    ensures forall k :: 0 <= k < |Sections(s)| ==> AllDigits(Sections(s)[k])
  {
    if s != "" {
      SectionsAreDigits(s[..|s| - 1]);
    }
  }

  lemma {:induction false} SectionsGrow(s: string, i: nat)
    requires i <= |s|
    ensures Separators(s[..i]) <= Separators(s)
    ensures forall k :: 0 <= k < |Sections(s[..i])| ==> |Sections(s[..i])[k]| <= |Sections(s)[k]|
    ensures forall k :: 0 <= k < Separators(s[..i]) ==> Sections(s[..i])[k] == Sections(s)[k]
    decreases |s|
  {
    if i < |s| {
      SectionsGrow(s[..|s| - 1], i);
      assert s[..|s| - 1][..i] == s[..i];
    } else {
      assert s[..i] == s;
    }
  }

  lemma {:induction false} SectionsConcat(a: string, c: char, b: string)
    requires IsSeparator(c) && forall i :: 0 <= i < |b| ==> !IsSeparator(b[i])
    ensures Sections(a + [c] + b) == Sections(a) + [b] && Separators(a + [c] + b) == Separators(a) + 1
    decreases |b|
  {
    var s := a + [c] + b;
    if b == "" {
      assert s[..|s| - 1] == a;
    } else {
      var m := |b| - 1;
      SectionsConcat(a, c, b[..m]);
      assert s[..|s| - 1] == a + [c] + b[..m];
      assert b == b[..m] + [b[m]];
    }
  }

  lemma {:induction false} OneSection(s: string)
    requires forall i :: 0 <= i < |s| ==> !IsSeparator(s[i])
    ensures Sections(s) == [s] && Separators(s) == 0
  {
    if s != "" {
      OneSection(s[..|s| - 1]);
      assert s == s[..|s| - 1] + [s[|s| - 1]];
    }
  }

  lemma {:induction false} FourSections(h: string, m: string, s: string, f: string)
    requires AllDigits(h) && AllDigits(m) && AllDigits(s) && AllDigits(f)
    ensures Sections(h + ":" + m + ":" + s + ":" + f) == [h, m, s, f]
  {
    OneSection(h);
    SectionsConcat(h, ':', m);
    SectionsConcat(h + ":" + m, ':', s);
    SectionsConcat(h + ":" + m + ":" + s, ':', f);
  }

  lemma Joined(a: string, b: string)
    requires AllDigits(b) && forall i :: 0 <= i < |a| ==> IsDigit(a[i]) || a[i] == ':'
    ensures forall i :: 0 <= i < |a + ":" + b| ==> IsDigit((a + ":" + b)[i]) || (a + ":" + b)[i] == ':'
  {}

  /** The sections of a printed timecode are its fields. */
  lemma PrintedSections(t: Hmsf)
    ensures Sections(Print(t)) == [Padded(t.hours, 2), Padded(t.minutes, 2), Padded(t.seconds, 2), Padded(t.subseconds, 2)]
    ensures forall i :: 0 <= i < |Print(t)| ==> IsDigit(Print(t)[i]) || Print(t)[i] == ':'
  {
    var h, m, s, f := Padded(t.hours, 2), Padded(t.minutes, 2), Padded(t.seconds, 2), Padded(t.subseconds, 2);
    PaddedRead(t.hours);
    PaddedRead(t.minutes);
    PaddedRead(t.seconds);
    PaddedRead(t.subseconds);
    FourSections(h, m, s, f);
    Joined(h, m);
    Joined(h + ":" + m, s);
    Joined(h + ":" + m + ":" + s, f);
  }

  /** The number in a section, aligned from the last; 0 if there is none. */
  function SectionValue(sections: seq<string>, j: nat): nat
    requires |sections| <= 4 && j < 4 && forall k :: 0 <= k < |sections| ==> AllDigits(sections[k])
  {
    if j + |sections| < 4 then 0 else ValueOf(sections[j + |sections| - 4])
  }

  /** The fields a text states, before any carry. After a period the last
      section is a fraction of a second. */
  function Stated(s: string, n: nat): (t: Hmsf)
    requires Readable(s)
  {
    SectionsAreDigits(s);
    var r := Sections(s);
    var last := SectionValue(r, 3);
    Hmsf(SectionValue(r, 0), SectionValue(r, 1), SectionValue(r, 2),
         if '.' in s then Fraction(last, |r[|r| - 1]|, n) else last)
  }

  function Fraction(v: nat, digits: nat, n: nat): nat {
    var x := v as real / Pow10(digits) as real * n as real;
    if x >= 0.0 then x.Floor else 0
  }

  /** A text with colons only is readable by the length of its sections. */
  lemma {:induction false} ReadableFour(p: string, h: string, m: string, s: string, f: string)
    requires Sections(p) == [h, m, s, f] && forall i :: 0 <= i < |p| ==> IsDigit(p[i]) || p[i] == ':'
    ensures Readable(p) <==> |h| <= 16 && |m| <= 16 && |s| <= 16 && |f| <= 16
  {
    var r := Sections(p);
    assert r[0] == h && r[1] == m && r[2] == s && r[3] == f;
  }

  lemma {:induction false} StatedFour(p: string, n: nat, h: string, m: string, s: string, f: string)
    requires Readable(p) && '.' !in p && Sections(p) == [h, m, s, f]
    ensures AllDigits(h) && AllDigits(m) && AllDigits(s) && AllDigits(f)
    ensures Stated(p, n) == Hmsf(ValueOf(h), ValueOf(m), ValueOf(s), ValueOf(f))
  {
    SectionsAreDigits(p);
    var r := Sections(p);
    assert r[0] == h && r[1] == m && r[2] == s && r[3] == f;
  }

  /** A printed timecode reads back as the same fields, exactly when neither
      hours nor frames need more than sixteen digits. */
  lemma PrintedReads(t: Hmsf, n: nat)
    requires Normal(n, t)
    ensures Readable(Print(t)) <==> t.hours < Pow10(16) && t.subseconds < Pow10(16)
    ensures Readable(Print(t)) ==> Stated(Print(t), n) == t
  {
    PrintedSections(t);
    PaddedRead(t.hours);
    PaddedRead(t.minutes);
    PaddedRead(t.seconds);
    PaddedRead(t.subseconds);
    SixtyIsShort(t.minutes);
    SixtyIsShort(t.seconds);
    var p := Print(t);
    var h, m, s, f := Padded(t.hours, 2), Padded(t.minutes, 2), Padded(t.seconds, 2), Padded(t.subseconds, 2);
    ReadableFour(p, h, m, s, f);
    if Readable(p) {
      StatedFour(p, n, h, m, s, f);
    }
  }

  lemma SixtyIsShort(n: nat)
    requires n < 60
    ensures n < Pow10(16)
  {
    PowAtLeastTen(14);
    assert Pow10(16) == 10 * Pow10(15) && Pow10(15) == 10 * Pow10(14);
  }

  // ---- Worked examples ----

  lemma TwoDigits(n: nat)
    requires n < 100
    ensures Padded(n, 2) == [DIGITS[n / 10], DIGITS[n % 10]]
  {
    if n < 10 {
      assert seq(1, _ => '0') == "0" == [DIGITS[0]];
      assert Padded(n, 2) == seq(1, _ => '0') + [DIGITS[n]];
    } else {
      assert Decimal(n) == Decimal(n / 10) + [DIGITS[n % 10]];
    }
  }

  /** Hours come first, and two digits are enough for a day. */
  lemma PrintedInOrder()
    ensures Print(Hmsf(1, 23, 45, 6)) == "01:23:45:06"
  {
    TwoDigits(1);
    TwoDigits(23);
    TwoDigits(45);
    TwoDigits(6);
    assert "01" + ":" + "23" + ":" + "45" + ":" + "06" == "01:23:45:06";
  }

  lemma OneDigit(c: char)
    requires IsDigit(c)
    ensures AllDigits([c]) && ValueOf([c]) == c as int - '0' as int
  {
    assert [c][..0] == "";
  }

  lemma ColonAfterFive()
    ensures Sections("5:7") == ["5", "7"] && Separators("5:7") == 1
  {
    OneSection("5");
    SectionsConcat("5", ':', "7");
    assert "5" + [':'] + "7" == "5:7";
  }

  /** Sections count from the last: two are seconds and frames. */
  lemma TwoSections()
    ensures Readable("5:7") && Stated("5:7", 24) == Hmsf(0, 0, 5, 7)
  {
    ColonAfterFive();
    OneDigit('5');
    OneDigit('7');
  }

  lemma HalfOfFrames()
    ensures Fraction(5, 1, 24) == 12
  {
    assert Pow10(1) == 10 * Pow10(0) == 10;
    assert 5 as real / 10 as real == 0.5;
  }

  lemma PeriodAfterOne()
    ensures Sections("1.5") == ["1", "5"] && Separators("1.5") == 1 && Separators("1.5"[..2]) == 1
  {
    OneSection("1");
    SectionsConcat("1", '.', "5");
    SectionsConcat("1", '.', "");
    assert "1" + ['.'] + "5" == "1.5" && "1" + ['.'] + "" == "1.5"[..2];
  }

  /** After a period the last section is a fraction: half a second is twelve of
      twenty-four frames. */
  lemma HalfSecond()
    ensures Readable("1.5") && Stated("1.5", 24) == Hmsf(0, 0, 1, 12)
  {
    PeriodAfterOne();
    HalfOfFrames();
    OneDigit('1');
    OneDigit('5');
    var p := "1.5";
    assert p[1] == '.' && '.' in p;
  }
}
