/** The timecode object: its fields, its text and its duration are kept in step
    (mp4v2/libutil/Timecode.cpp). */
module SmpteTimecode {
  import opened Numbers
  import opened TimeBend
  import opened Smpte

  function Ceiling(x: real): (n: int)
    ensures n as real - 1.0 < x <= n as real
  {
    -((-x).Floor)
  }

  /** The text of a timecode, with frames or with thousandths of a second. */
  function Text(t: Hmsf, format: Format, scale: real): string
    requires scale >= 1.0
  {
    match format
    case Frame => Print(t)
    case DecimalFraction =>
      var x := (t.subseconds as real / scale * 1000.0 + 0.5).Floor;
      Padded(t.hours, 2) + ":" + Padded(t.minutes, 2) + ":" + Padded(t.seconds, 2) + "." + Padded(if x >= 0 then x else 0, 3)
  }

  /** A duration at scale `from` at the scale `to`, cut down to whole frames. */
  function Converted(to: real, from: real, d: nat): int
    requires from >= 1.0
  {
    if to == from then d else Times(d, to / from).Floor
  }

  /** In plain numbers: the duration times the ratio of the scales, cut down. */
  lemma ConvertedIs(to: real, from: real, d: nat)
    requires from >= 1.0
    ensures to == from ==> Converted(to, from, d) == d
    ensures to != from ==> Converted(to, from, d) == (d as real * (to / from)).Floor
  {
    TimesIsProduct(d, to / from);
  }

  /** Two seconds of film are fifty frames of video; another one of those is not
      yet a frame of film. */
  lemma FilmAndVideo()
    ensures Converted(25.0, 24.0, 48) == 50 && Converted(24.0, 25.0, 51) == 48
  {
    ConvertedIs(25.0, 24.0, 48);
    ConvertedIs(24.0, 25.0, 51);
    assert 25.0 / 24.0 * 24.0 == 25.0;
  }

  /** A second and a half, in thousandths. */
  lemma TextOfHalf()
    ensures Text(Hmsf(0, 0, 1, 12), DecimalFraction, 24.0) == "00:00:01.500"
  {
    TwoDigits(0);
    TwoDigits(1);
    var x := (12 as real / 24.0 * 1000.0 + 0.5).Floor;
    assert x == 500;
    assert Decimal(500) == Decimal(50) + "0" && Decimal(50) == Decimal(5) + "0" && Decimal(5) == "5";
    assert Padded(500, 3) == "" + Decimal(500) == "500";
    assert "00" + ":" + "00" + ":" + "01" + "." + "500" == "00:00:01.500";
  }

  /** A duration as a 64-bit integer. */
  function Wrapped(d: nat): (w: nat)
    ensures w < TWO64 && (d < TWO64 ==> w == d)
  {
    d % TWO64
  }

  /** Sum and difference as 64-bit integers, with the checks for overflow. */
  function SumWithin(a: nat, b: nat): (s: nat)
    requires a < TWO64 && b < TWO64
    ensures s == if a + b < TWO64 then a + b else TWO64 - 1
  {
    var s := (a + b) % TWO64;
    if s < a then TWO64 - 1 else s
  }

  function DifferenceWithin(a: nat, b: nat): (s: nat)
    requires a < TWO64 && b < TWO64
    ensures s == if a >= b then a - b else 0
  {
    var s := (a - b) % TWO64;
    if s > a then 0 else s
  }

  /** The duration as the sum of the fields. */
  function SumOfFields(n: nat, t: Hmsf): (d: int)
    ensures d == Frames(n, t)
  {
    Distribute(n, t.seconds + 60 * t.minutes, 3600 * t.hours);
    Distribute(n, t.seconds, 60 * t.minutes);
    Associate(n, 60, t.minutes);
    Associate(n, 3600, t.hours);
    Associate(n, t.minutes, 60);
    Associate(n, t.hours, 3600);
    t.subseconds + n * t.seconds + n * t.minutes * 60 + n * t.hours * 3600
  }

  const NOTHING: Hmsf := Hmsf(0, 0, 0, 0)

  /** The fields a text means; the empty text means nothing. */
  function Meant(s: string, n: nat): Hmsf
    requires s == "" || Readable(s)
  {
    if s == "" then NOTHING else Stated(s, n)
  }

  function FieldOf(t: Hmsf, j: nat): nat
    requires j < 4
  {
    if j == 0 then t.hours else if j == 1 then t.minutes else if j == 2 then t.seconds else t.subseconds
  }

  function With(t: Hmsf, j: nat, v: nat): (r: Hmsf)
    requires j < 4
    ensures forall k :: 0 <= k < 4 ==> FieldOf(r, k) == if k == j then v else FieldOf(t, k)
  {
    if j == 0 then t.(hours := v)
    else if j == 1 then t.(minutes := v)
    else if j == 2 then t.(seconds := v)
    else t.(subseconds := v)
  }

  // ---- Reading a text ----

  function CountOf(s: string, c: char): nat {
    if s == "" then 0 else CountOf(s[..|s| - 1], c) + if s[|s| - 1] == c then 1 else 0
  }

  lemma {:induction false} CountedOccurs(s: string, c: char)
    ensures CountOf(s, c) > 0 <==> c in s
  {
    if s != "" {
      CountedOccurs(s[..|s| - 1], c);
      assert s == s[..|s| - 1] + [s[|s| - 1]];
    }
  }

  /** What has been read of a text up to `i`: the fields of all sections that
      are complete, and the digits of the one that is not. */
  ghost predicate Reading(s: string, i: nat, n: int, target: int, buffer: string, t: Hmsf, format: Format)
    requires i <= |s|
  {
    var p := s[..i];
    && 0 <= target <= 3 && target == 3 - n + Separators(p)
    && (forall k :: 0 <= k < i ==> IsDigit(s[k]) || IsSeparator(s[k]))
    && (forall k :: 0 <= k < i && s[k] == '.' ==> Separators(s[..k + 1]) == n)
    && (format == DecimalFraction <==> '.' in p)
    && buffer == Sections(p)[Separators(p)]
    && (forall k :: 0 <= k < |Sections(p)| ==> AllDigits(Sections(p)[k]) && |Sections(p)[k]| <= 16)
    && (forall j :: 0 <= j < 4 ==> FieldOf(t, j) == if 3 - n <= j < target then ValueOf(Sections(p)[j - (3 - n)]) else 0)
  }

  lemma NextCharacter(s: string, i: nat)
    requires i < |s|
    ensures var p, q := s[..i], s[..i + 1];
            && q == p + [s[i]] && Separators(q) == Separators(p) + (if IsSeparator(s[i]) then 1 else 0)
            && ('.' in q <==> '.' in p || s[i] == '.')
            && (IsSeparator(s[i]) ==> Sections(q) == Sections(p) + [""])
            && (!IsSeparator(s[i]) ==> Sections(q) == Sections(p)[Separators(p) := Sections(p)[Separators(p)] + [s[i]]])
  {
    assert s[..i + 1][..i] == s[..i];
  }

  lemma ReadDigit(s: string, i: nat, n: int, target: int, buffer: string, t: Hmsf, format: Format)
    requires i < |s| && Reading(s, i, n, target, buffer, t, format) && IsDigit(s[i]) && |buffer| < 16
    ensures Reading(s, i + 1, n, target, buffer + [s[i]], t, format)
  {
    NextCharacter(s, i);
    DigitsNext(buffer, s[i]);
  }

  lemma DigitsNext(s: string, c: char)
    requires AllDigits(s) && IsDigit(c)
    ensures AllDigits(s + [c])
  {}

  lemma {:induction false} ReadSeparator(s: string, i: nat, n: int, target: int, buffer: string, t: Hmsf, format: Format)
    requires i < |s| && Reading(s, i, n, target, buffer, t, format) && IsSeparator(s[i])
    requires if s[i] == '.' then target == 2 else target <= 2
    ensures AllDigits(buffer)
    ensures Reading(s, i + 1, n, target + 1, "", With(t, target, ValueOf(buffer)), if s[i] == '.' then DecimalFraction else format)
  {
    NextCharacter(s, i);
    var p, q := s[..i], s[..i + 1];
    var t' := With(t, target, ValueOf(buffer));
    forall j | 0 <= j < 4
      ensures FieldOf(t', j) == if 3 - n <= j < target + 1 then ValueOf(Sections(q)[j - (3 - n)]) else 0
    {
      if 3 - n <= j <= target { assert Sections(q)[j - (3 - n)] == Sections(p)[j - (3 - n)]; }
    }
  }

  /** What the digits of the last section mean. */
  function LastValue(buffer: string, format: Format, rate: nat): nat
    requires AllDigits(buffer)
  {
    if format == DecimalFraction then Fraction(ValueOf(buffer), |buffer|, rate) else ValueOf(buffer)
  }

  /** Reasons to give up on a text. */
  lemma TooLong(s: string, i: nat, n: int, target: int, buffer: string, t: Hmsf, format: Format)
    requires i < |s| && Reading(s, i, n, target, buffer, t, format) && IsDigit(s[i]) && |buffer| >= 16
    ensures !Readable(s)
  {
    NextCharacter(s, i);
    SectionsGrow(s, i + 1);
    var k := Separators(s[..i]);
    assert |Sections(s[..i + 1])[k]| > 16;
    assert |Sections(s)[k]| > 16;
  }

  lemma {:induction false} Misplaced(s: string, i: nat, n: int, target: int, buffer: string, t: Hmsf, format: Format)
    requires i < |s| && Reading(s, i, n, target, buffer, t, format) && n == Separators(s) + CountOf(s, ';')
    requires if s[i] == '.' then target != 2 else s[i] == ':' && target == 3
    ensures !Readable(s)
  {
    NextCharacter(s, i);
    SectionsGrow(s, i + 1);
    CountedOccurs(s, ';');
    if ';' in s {
      var k :| 0 <= k < |s| && s[k] == ';';
      assert !IsDigit(s[k]) && !IsSeparator(s[k]);
    } else if s[i] == '.' {
      assert Separators(s[..i + 1]) != Separators(s);
    }
  }

  lemma ReadAll(s: string, n: int, target: int, buffer: string, t: Hmsf, format: Format, rate: nat)
    requires s != "" && Reading(s, |s|, n, target, buffer, t, format) && n == Separators(s) + CountOf(s, ';') && n <= 3
    ensures Readable(s) && target == 3 && AllDigits(buffer)
    ensures Stated(s, rate) == With(t, 3, LastValue(buffer, format, rate))
  {
    assert s[..|s|] == s;
    CountedOccurs(s, ';');
    assert ';' !in s by {
      assert !IsDigit(';') && !IsSeparator(';');
    }
    assert n == Separators(s);
    SectionsAreDigits(s);
    ReadStated(s, n, t, buffer, format, rate);
  }

  lemma ReadStated(s: string, n: int, t: Hmsf, buffer: string, format: Format, rate: nat)
    requires Readable(s) && n == Separators(s) && Reading(s, |s|, n, 3, buffer, t, format) && s[..|s|] == s
    ensures AllDigits(buffer)
    ensures Stated(s, rate) == With(t, 3, LastValue(buffer, format, rate))
  {
    SectionsAreDigits(s);
    var r, u := Sections(s), Stated(s, rate);
    assert FieldOf(t, 0) == SectionValue(r, 0) && FieldOf(t, 1) == SectionValue(r, 1) && FieldOf(t, 2) == SectionValue(r, 2);
    assert r[|r| - 1] == buffer;
  }

  /** Counts what may separate sections, semicolons included; more than one
      semicolon or period is refused. */
  method CountSections(s: string) returns (n: nat, tooMany: bool)
    ensures n == Separators(s) + CountOf(s, ';')
    ensures tooMany <==> CountOf(s, ';') > 1 || CountOf(s, '.') > 1
  {
    n := 0;
    var nsemi, ndot := 0, 0;
    for i := 0 to |s|
      invariant n == Separators(s[..i]) + CountOf(s[..i], ';')
      invariant nsemi == CountOf(s[..i], ';') && ndot == CountOf(s[..i], '.')
    {
      assert s[..i + 1][..i] == s[..i];
      match s[i] {
        case ':' => n := n + 1;
        case ';' => n, nsemi := n + 1, nsemi + 1;
        case '.' => n, ndot := n + 1, ndot + 1;
        case _ =>
      }
    }
    assert s[..|s|] == s;
    tooMany := nsemi > 1 || ndot > 1;
  }

  lemma {:induction false} TwoPeriods(s: string, i: nat)
    requires i <= |s| && forall k :: 0 <= k < i && s[k] == '.' ==> Separators(s[..k + 1]) == Separators(s)
    ensures CountOf(s[..i], '.') <= 1
    ensures CountOf(s[..i], '.') == 1 ==> Separators(s[..i]) == Separators(s)
  {
    if i > 0 {
      TwoPeriods(s, i - 1);
      assert s[..i][..i - 1] == s[..i - 1];
      SectionsGrow(s, i);
      if s[i - 1] == '.' { assert Separators(s[..i - 1 + 1]) == Separators(s); }
    }
  }

  /** A text with too many sections, or semicolons or periods too many, is not
      readable. */
  lemma TooMany(s: string)
    requires CountOf(s, ';') > 1 || CountOf(s, '.') > 1 || Separators(s) + CountOf(s, ';') > 3
    ensures !Readable(s)
  {
    CountedOccurs(s, ';');
    assert s[..|s|] == s && !IsDigit(';') && !IsSeparator(';');
    if Readable(s) {
      TwoPeriods(s, |s|);
    }
  }

  class Timecode {
    var scale: real
    var duration: nat
    var format: Format
    var svalue: string
    var hours: nat
    var minutes: nat
    var seconds: nat
    var subseconds: nat

    /** A timecode of `d` frames; a scale below 1 counts as 1. */
    constructor (d: nat, scale: real)
      requires d < TWO64
      ensures Valid() && this.scale == (if scale < 1.0 then 1.0 else scale)
      ensures format == Frame && duration == d && Settled(d)
    {
      this.scale := if scale < 1.0 then 1.0 else scale;
      duration, format, svalue, hours, minutes, seconds, subseconds := 0, Frame, "", 0, 0, 0, 0;
      new;
      SetDuration(d, 0.0);
    }

    ghost predicate Valid()
      reads this`scale
    {
      scale >= 1.0
    }

    /** Whole frames to the second. */
    function Rate(): (n: nat)
      requires scale >= 1.0
      reads this`scale
      ensures n >= 1
    {
      Ceiling(scale)
    }

    ghost function Fields(): Hmsf
      reads this`hours, this`minutes, this`seconds, this`subseconds
    {
      Hmsf(hours, minutes, seconds, subseconds)
    }

    /** Fields, duration and text agree on `d` frames: the fields are in normal
        form, and the duration is taken modulo 2^64. */
    ghost predicate Settled(d: nat)
      requires scale >= 1.0
      reads this
    {
      Fields() == NormalForm(Rate(), d) && duration == Wrapped(d) && svalue == Text(Fields(), format, scale)
    }

    /** Brings the fields into normal form, without changing what they add up
        to, and computes duration and text from them. */
    method Recompute()
      requires Valid()
      modifies this`duration, this`svalue, this`hours, this`minutes, this`seconds, this`subseconds
      ensures Settled(Frames(Rate(), old(Fields())))
    {
      var iscale := Rate();
      CarryFields(iscale);
      FormOfNormal(iscale, Fields());
      var t := Hmsf(hours, minutes, seconds, subseconds);
      duration := Wrapped(SumOfFields(iscale, t));
      svalue := Text(t, format, scale);
    }

    method CarryFields(iscale: nat)
      requires iscale >= 1
      modifies this`hours, this`minutes, this`seconds, this`subseconds
      ensures Normal(iscale, Fields()) && Frames(iscale, Fields()) == Frames(iscale, old(Fields()))
    {
      CarryFrames(iscale, subseconds, seconds + 60 * minutes + 3600 * hours);
      CarrySubseconds(iscale);
      if seconds > 59 {
        var n := seconds / 60;
        minutes := minutes + n;
        seconds := seconds - n * 60;
      }
      if minutes > 59 {
        var n := minutes / 60;
        hours := hours + n;
        minutes := minutes - n * 60;
      }
      assert WholeSeconds(Fields()) == old(WholeSeconds(Fields())) + old(subseconds) / iscale;
    }

    method CarrySubseconds(iscale: nat)
      requires iscale >= 1
      modifies this`seconds, this`subseconds
      ensures var q := old(subseconds) / iscale;
              seconds == old(seconds) + q && subseconds == old(subseconds) - q * iscale
    {
      CarryFrames(iscale, subseconds, seconds);
      if subseconds > iscale - 1 {
        var n := subseconds / iscale;
        seconds := seconds + n;
        subseconds := subseconds - n * iscale;
      }
    }

    /** Sets the duration, and a scale if one is given. */
    method SetDuration(d: nat, newScale: real)
      requires Valid() && d < TWO64
      modifies this
      ensures Valid() && scale == (if newScale == 0.0 then old(scale) else if newScale < 1.0 then 1.0 else newScale)
      ensures duration == d && Settled(d) && format == old(format)
    {
      SetScale(newScale);
      duration := d;
      SetWhole(d);
    }

    /** Sets the fields to a number of frames. */
    method SetWhole(d: nat)
      requires Valid()
      modifies this`duration, this`svalue, this`hours, this`minutes, this`seconds, this`subseconds
      ensures Settled(d)
    {
      SetFields(Rate(), d);
      Recompute();
    }

    method SetScale(newScale: real)
      requires Valid()
      modifies this`scale
      ensures Valid() && scale == (if newScale == 0.0 then old(scale) else if newScale < 1.0 then 1.0 else newScale)
    {
      if newScale != 0.0 {
        scale := if newScale < 1.0 then 1.0 else newScale;
      }
    }

    method SetFields(iscale: nat, d: nat)
      requires iscale >= 1
      modifies this`hours, this`minutes, this`seconds, this`subseconds
      ensures Frames(iscale, Fields()) == d
    {
      SplitSteps(iscale, d);
      var i := d;
      hours := i / (iscale * 3600);
      i := i - iscale * 3600 * hours;
      minutes := i / (iscale * 60);
      i := i - iscale * 60 * minutes;
      seconds := i / iscale;
      i := i - iscale * seconds;
      subseconds := i;
    }

    method SetField(j: nat, v: nat)
      requires j < 4
      modifies this`hours, this`minutes, this`seconds, this`subseconds
      ensures Fields() == With(old(Fields()), j, v)
    {
      match j {
        case 0 => hours := v;
        case 1 => minutes := v;
        case 2 => seconds := v;
        case _ => subseconds := v;
      }
    }

    /** Reads a text. Whatever is not readable, except the empty text, is
        refused. */
    method Parse(time: string) returns (failed: bool)
      requires Valid()
      modifies this
      ensures Valid() && scale == old(scale)
      ensures failed <==> time != "" && !Readable(time)
      ensures !failed ==> format == if '.' in time then DecimalFraction else Frame
      ensures !failed ==> Settled(Frames(Rate(), Meant(time, Rate())))
    {
      format, hours, minutes, seconds, subseconds := Frame, 0, 0, 0, 0;
      if time != "" {
        failed := ReadText(time);
        if failed {
          return;
        }
      }
      ghost var t := Meant(time, Rate());
      assert Fields() == t;
      Recompute();
      return false;
    }

    /** Reads a text into the fields, if it is readable. */
    method ReadText(time: string) returns (failed: bool)
      requires Valid() && time != "" && format == Frame && Fields() == NOTHING
      modifies this`duration, this`format, this`svalue, this`hours, this`minutes, this`seconds, this`subseconds
      ensures failed <==> !Readable(time)
      ensures !failed ==> Fields() == Stated(time, Rate()) && format == if '.' in time then DecimalFraction else Frame
    {
      var nsect, tooMany := CountSections(time);
      if tooMany {
        TooMany(time);
        return true;
      }
      if nsect > 3 {
        TooMany(time);
        Recompute();
        return true;
      }
      failed := ReadSections(time, nsect);
    }

    /** Reads the sections of a text into the fields. */
    method ReadSections(time: string, nsect: nat) returns (failed: bool)
      requires Valid() && time != "" && nsect == Separators(time) + CountOf(time, ';') <= 3
      requires format == Frame && Fields() == NOTHING
      modifies this`format, this`hours, this`minutes, this`seconds, this`subseconds
      ensures failed <==> !Readable(time)
      ensures !failed ==> Fields() == Stated(time, Rate()) && format == if '.' in time then DecimalFraction else Frame
    {
      var target, buffer;
      failed, target, buffer := ScanSections(time, nsect);
      if !failed {
        ReadAll(time, nsect, target, buffer, Fields(), format, Rate());
        assert time[..|time|] == time;
        SetField(3, LastValue(buffer, format, Rate()));
      }
    }

    /** Reads all sections up to the last one, whose digits are still to be
        converted. */
    method ScanSections(time: string, nsect: nat) returns (failed: bool, target: int, buffer: string)
      requires time != "" && nsect == Separators(time) + CountOf(time, ';') <= 3
      requires format == Frame && Fields() == NOTHING
      modifies this`format, this`hours, this`minutes, this`seconds, this`subseconds
      ensures failed ==> !Readable(time)
      ensures !failed ==> Reading(time, |time|, nsect, target, buffer, Fields(), format)
    {
      failed, target, buffer := true, 3 - nsect, "";
      for i := 0 to |time|
        invariant Reading(time, i, nsect, target, buffer, Fields(), format)
      {
        var c := time[i];
        if c == ':' {
          if target == 3 {
            Misplaced(time, i, nsect, target, buffer, Fields(), format);
            return;
          }
          EndSection(time, i, nsect, target, buffer);
          target, buffer := target + 1, "";
        } else if c == '.' {
          if target != 2 {
            Misplaced(time, i, nsect, target, buffer, Fields(), format);
            return;
          }
          EndSection(time, i, nsect, target, buffer);
          target, buffer := target + 1, "";
        } else if IsDigit(c) {
          if |buffer| + 1 > 16 {
            TooLong(time, i, nsect, target, buffer, Fields(), format);
            return;
          }
          ReadDigit(time, i, nsect, target, buffer, Fields(), format);
          buffer := buffer + [c];
        } else {
          assert !IsSeparator(time[i]);
          return;
        }
      }
      failed := false;
    }

    /** Stores the section that ends at a separator; a period announces a
        fraction of a second. */
    method EndSection(time: string, i: nat, ghost nsect: nat, target: nat, buffer: string)
      requires i < |time| && IsSeparator(time[i]) && (if time[i] == '.' then target == 2 else target <= 2)
      requires Reading(time, i, nsect, target, buffer, Fields(), format)
      modifies this`format, this`hours, this`minutes, this`seconds, this`subseconds
      ensures Reading(time, i + 1, nsect, target + 1, "", Fields(), format)
    {
      ReadSeparator(time, i, nsect, target, buffer, Fields(), format);
      SetField(target, ValueOf(buffer));
      if time[i] == '.' {
        format := DecimalFraction;
      }
    }

    /** Another timecode's duration at this one's scale. */
    function ConvertDuration(obj: Timecode): (d: int)
      requires scale >= 1.0 && obj.scale >= 1.0
      reads this`scale, obj`scale, obj`duration
      ensures d == if scale == obj.scale then obj.duration else (obj.duration as real * (scale / obj.scale)).Floor
    {
      ConvertedIs(scale, obj.scale, obj.duration);
      Converted(scale, obj.scale, obj.duration)
    }

    /** Adds a duration; what does not fit 64 bits becomes the largest that
        does. */
    method PlusAssign(rhs: Timecode)
      requires Valid() && rhs.Valid() && duration < TWO64 && 0 <= ConvertDuration(rhs) < TWO64
      modifies this
      ensures var sum := old(duration) + old(ConvertDuration(rhs));
              duration == if sum < TWO64 then sum else TWO64 - 1
      ensures Valid() && scale == old(scale) && Settled(duration)
    {
      SetDuration(SumWithin(duration, ConvertDuration(rhs)), 0.0);
    }

    /** Takes a duration off, down to nothing. */
    method MinusAssign(rhs: Timecode)
      requires Valid() && rhs.Valid() && duration < TWO64 && 0 <= ConvertDuration(rhs) < TWO64
      modifies this
      ensures var left := old(duration) - old(ConvertDuration(rhs));
              duration == if left >= 0 then left else 0
      ensures Valid() && scale == old(scale) && Settled(duration)
    {
      SetDuration(DifferenceWithin(duration, ConvertDuration(rhs)), 0.0);
    }
  }

  /** The text of a timecode, read at the same scale, gives it back, exactly
      when neither hours nor frames need more than sixteen digits. */
  lemma TextRestores(t: Hmsf, scale: real, n: nat)
    requires scale >= 1.0 && n == Ceiling(scale) && Normal(n, t)
    ensures Readable(Text(t, Frame, scale)) <==> t.hours < Pow10(16) && t.subseconds < Pow10(16)
    ensures Readable(Text(t, Frame, scale)) ==> Stated(Text(t, Frame, scale), n) == t
  {
    PrintedReads(t, n);
  }

  /** A timecode read back from the text of another at the same scale: it has
      the same fields and duration, exactly when the text can be read. */
  method ReadBack(t: Timecode, ghost d: nat) returns (again: Timecode, failed: bool)
    requires t.Valid() && t.format == Frame && t.Settled(d)
    ensures failed <==> t.hours >= Pow10(16) || t.subseconds >= Pow10(16)
    ensures again.scale == t.scale
    ensures !failed ==> again.Fields() == t.Fields() && again.duration == t.duration
  {
    again := new Timecode(0, t.scale);
    TextRestores(t.Fields(), t.scale, t.Rate());
    FormOfNormal(t.Rate(), t.Fields());
    failed := again.Parse(t.svalue);
  }
}
