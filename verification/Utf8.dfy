/** File names from UTF-8 to UTF-16: section 3 of RFC 3629 and section 2.1 of
    RFC 2781 (mp4v2/libplatform/platform_win32.cpp). */
module Utf8 {
  import opened ByteFile

  const REPLACEMENT: nat := 0xFFFD

  // ---- Decoding one character ----

  /** How many octets a character takes by its first; 0 if it cannot be one. */
  function Octets(b: byte): (n: nat)
    ensures n <= 6
  {
    if b <= 0x7F then 1
    else if b <= 0xBF then 0
    else if b <= 0xDF then 2
    else if b <= 0xEF then 3
    else if b <= 0xF7 then 4
    else if b <= 0xFB then 5
    else if b <= 0xFD then 6
    else 0
  }

  datatype LenInfo = LenInfo(min: nat, max: nat, octets: nat)

  const LEN_INFO: seq<LenInfo> := [
    LenInfo(0x0, 0x7F, 1), LenInfo(0x80, 0x7FF, 2), LenInfo(0x800, 0xFFFF, 3),
    LenInfo(0x1_0000, 0x1F_FFFF, 4), LenInfo(0x20_0000, 0x3FF_FFFF, 5), LenInfo(0x400_0000, 0x7FFF_FFFF, 6)
  ]

  /** How many octets a code point takes; 0 if it has no encoding. */
  function EncodedLength(c: nat): (n: nat)
    ensures n <= 6
  {
    if c <= 0x7F then 1
    else if c <= 0x7FF then 2
    else if c <= 0xFFFF then 3
    else if c <= 0x1F_FFFF then 4
    else if c <= 0x3FF_FFFF then 5
    else if c <= 0x7FFF_FFFF then 6
    else 0
  }

  /** The code point's length looked up in the table of ranges. */
  method Utf8LenFromUcs4(c: nat) returns (n: nat)
    ensures n == EncodedLength(c)
  {
    for i := 0 to |LEN_INFO|
      invariant i > 0 ==> c > LEN_INFO[i - 1].max
    {
      if LEN_INFO[i].min <= c <= LEN_INFO[i].max {
        return LEN_INFO[i].octets;
      }
    }
    return 0;
  }

  /** The bits of the first octet that belong to the code point. */
  function LeadBits(b: byte, len: nat): nat
    requires 2 <= len <= 6
  {
    b % (if len == 2 then 32 else if len == 3 then 16 else if len == 4 then 8 else if len == 5 then 4 else 2)
  }

  predicate Continues(b: byte) {
    0x80 <= b <= 0xBF
  }

  /** What continuation octets make of the bits so far: the code point if all
      `left` octets are there, and where the scan stopped. */
  function Gather(d: Bytes, p: nat, left: nat, acc: nat): (r: (bool, nat, nat))
    requires p + left <= |d|
    ensures p <= r.2 <= p + left && (r.0 ==> r.2 == p + left)
    ensures forall k :: p <= k < r.2 ==> Continues(d[k])
    decreases left
  {
    if left == 0 then (true, acc, p)
    else if !Continues(d[p]) then (false, acc, p)
    else Gather(d, p + 1, left - 1, 64 * acc + d[p] % 64)
  }

  /** One or two UTF-16 units (the second 0 if there is none), and where the
      next character starts. */
  datatype Decoded = Decoded(first: nat, second: nat, next: nat)

  predicate Allowed(c: nat) {
    c <= 0x10_FFFF && !(0xD800 <= c <= 0xDFFF) && c != 0xFFFE && c != 0xFFFF
  }

  /** The UTF-16 units of a code point: itself, or a high and a low surrogate
      that share its twenty bits above 0xFFFF (section 2.1 of RFC 2781). */
  function Utf16(c: nat): (us: seq<nat>)
    ensures c <= 0xFFFF ==> us == [c]
    ensures 0x1_0000 <= c <= 0x10_FFFF ==> |us| == 2 && Surrogates(us[0], us[1], c)
  {
    if c <= 0xFFFF then [c] else [0xD800 + (c - 0x1_0000) / 0x400, 0xDC00 + (c - 0x1_0000) % 0x400]
  }

  /** A high and a low surrogate for a code point. */
  predicate Surrogates(high: nat, low: nat, c: nat) {
    0xD800 <= high <= 0xDBFF && 0xDC00 <= low <= 0xDFFF && c == 0x1_0000 + 0x400 * (high - 0xD800) + (low - 0xDC00)
  }

  function DecodeAt(d: Bytes, p: nat): (r: Decoded)
    requires p < |d|
  {
    var len := Octets(d[p]);
    if len == 0 then Decoded(REPLACEMENT, 0, p + 1)
    else if len == 1 then Decoded(d[p], 0, p + 1)
    else if len > |d| - p then Decoded(REPLACEMENT, 0, p + 1)
    else
      var g := Gather(d, p + 1, len - 1, LeadBits(d[p], len));
      if !g.0 || EncodedLength(g.1) != len || !Allowed(g.1) then Decoded(REPLACEMENT, 0, g.2)
      else
        var us := Utf16(g.1);
        Decoded(us[0], if |us| == 2 then us[1] else 0, g.2)
  }

  function Bound(b: nat, k: nat): nat
    decreases k
  {
    if k == 0 then b else Bound(64 * b, k - 1)
  }

  lemma {:induction false} GatherBound(d: Bytes, p: nat, left: nat, acc: nat, b: nat)
    requires p + left <= |d| && acc < b
    ensures Gather(d, p, left, acc).0 ==> Gather(d, p, left, acc).1 < Bound(b, left)
    decreases left
  {
    if left > 0 && Continues(d[p]) {
      GatherBound(d, p + 1, left - 1, 64 * acc + d[p] % 64, 64 * b);
    }
  }

  /** A code point gathered from `len` octets has an encoding, of at most that
      length: neither assertion about it can fail. */
  lemma GatheredFits(d: Bytes, p: nat)
    requires p < |d| && 2 <= Octets(d[p]) <= |d| - p
    ensures var len := Octets(d[p]);
            var g := Gather(d, p + 1, len - 1, LeadBits(d[p], len));
            g.0 ==> 0 < EncodedLength(g.1) <= len
  {
    var len := Octets(d[p]);
    var b := if len == 2 then 32 else if len == 3 then 16 else if len == 4 then 8 else if len == 5 then 4 else 2;
    GatherBound(d, p + 1, len - 1, LeadBits(d[p], len), b);
    assert Bound(32, 1) == 0x800;
    assert Bound(16, 2) == 0x1_0000;
    assert Bound(8, 3) == Bound(8 * 4096, 1) == 0x20_0000;
    assert Bound(4, 4) == Bound(4 * 4096, 2) == 0x400_0000;
    assert Bound(2, 5) == Bound(2 * 4096, 3) == Bound(2 * 4096 * 4096, 1) == 0x8000_0000;
  }

  /** The bytes of a NUL-terminated string. */
  predicate Terminated(d: Bytes) {
    d != [] && d[|d| - 1] == 0 && forall i :: 0 <= i < |d| - 1 ==> d[i] != 0
  }

  /** Decoding moves forward, never past the NUL, and needs no more units than
      bytes. */
  lemma DecodeAdvances(d: Bytes, p: nat)
    requires Terminated(d) && p < |d| - 1
    ensures var r := DecodeAt(d, p);
            && p < r.next <= |d| - 1
            && (r.second != 0 ==> p + 4 <= r.next)
  {
    var len := Octets(d[p]);
    if 2 <= len <= |d| - p {
      var g := Gather(d, p + 1, len - 1, LeadBits(d[p], len));
      assert !Continues(d[|d| - 1]);
    }
  }

  /** Decodes the character at `p`; `numBytes` are left, the NUL included. */
  method Utf8DecodeChar(d: Bytes, p0: nat, numBytes: nat) returns (first: nat, second: nat, p: nat, ghost c: nat)
    requires Terminated(d) && p0 < |d| - 1 && numBytes == |d| - p0
    ensures Decoded(first, second, p) == DecodeAt(d, p0)
    ensures BrokenRule(d, p0, Decoded(first, second, p))
    ensures c <= 0x10_FFFF && ((first == 0xFFFD && second == 0) || WholeRule(d, p0, Decoded(first, second, p), c))
  {
    DecodeBroken(d, p0);
    c := DecodeWhole(d, p0);
    p, second := p0, 0;
    var len := Octets(d[p]);
    if len == 0 {
      return REPLACEMENT, 0, p + 1, c;
    }
    if len == 1 {
      return d[p], 0, p + 1, c;
    }
    if len > numBytes {
      return REPLACEMENT, 0, p + 1, c;
    }
    GatheredFits(d, p0);
    var ok, ucs4;
    ok, ucs4, p := GatherOctets(d, p + 1, len - 1, LeadBits(d[p], len));
    if !ok {
      return REPLACEMENT, 0, p, c;
    }
    first, second := ToUtf16(ucs4, len);
  }

  /** Takes the six low bits of continuation octets, up to one that is none. */
  method GatherOctets(d: Bytes, p0: nat, left: nat, acc: nat) returns (ok: bool, ucs4: nat, p: nat)
    requires p0 + left <= |d|
    ensures (ok, ucs4, p) == Gather(d, p0, left, acc)
  {
    p, ucs4 := p0, acc;
    for i := 0 to left
      invariant p == p0 + i && Gather(d, p0, left, acc) == Gather(d, p, left - i, ucs4)
    {
      if d[p] < 0x80 || d[p] > 0xBF {
        return false, ucs4, p;
      }
      ucs4 := ucs4 * 64 + d[p] % 64;
      p := p + 1;
    }
    return true, ucs4, p;
  }

  /** The end of decoding: overlong encodings and code points that are not
      allowed are replaced, others converted. */
  method ToUtf16(ucs4: nat, len: nat) returns (first: nat, second: nat)
    requires 0 < EncodedLength(ucs4) <= len
    ensures if EncodedLength(ucs4) != len || !Allowed(ucs4) then first == REPLACEMENT && second == 0
            else first == Utf16(ucs4)[0] && second == if ucs4 > 0xFFFF then Utf16(ucs4)[1] else 0
    ensures EncodedLength(ucs4) < len || 0xD800 <= ucs4 <= 0xDFFF || 0xFFFE <= ucs4 <= 0xFFFF || ucs4 > 0x10_FFFF ==>
              first == 0xFFFD && second == 0
    ensures EncodedLength(ucs4) == len && (ucs4 <= 0xD7FF || 0xE000 <= ucs4 <= 0xFFFD) ==> first == ucs4 && second == 0
    ensures EncodedLength(ucs4) == len && 0x1_0000 <= ucs4 <= 0x10_FFFF ==> Surrogates(first, second, ucs4)
  {
    var validLen := Utf8LenFromUcs4(ucs4);
    assert validLen != 0;
    if len != validLen {
      assert len > validLen;
      return REPLACEMENT, 0;
    }
    if ucs4 > 0x10_FFFF {
      return REPLACEMENT, 0;
    }
    if 0xD800 <= ucs4 <= 0xDFFF {
      return REPLACEMENT, 0;
    }
    if ucs4 == 0xFFFF || ucs4 == 0xFFFE {
      return REPLACEMENT, 0;
    }
    if ucs4 <= 0xFFFF {
      return ucs4, 0;
    }
    return 0xD800 + (ucs4 - 0x1_0000) / 0x400, 0xDC00 + ucs4 % 0x400;
  }

  // ---- Decoding a string ----

  /** The UTF-16 units of the string from `p` on. */
  ghost function Units(d: Bytes, p: nat): (us: seq<nat>)
    requires Terminated(d) && p < |d|
    decreases |d| - p
  {
    if p == |d| - 1 then []
    else
      DecodeAdvances(d, p);
      var r := DecodeAt(d, p);
      (if r.second != 0 then [r.first, r.second] else [r.first]) + Units(d, r.next)
  }

  /** A string never needs more units than it has bytes. */
  lemma {:induction false} UnitsFit(d: Bytes, p: nat)
    requires Terminated(d) && p < |d|
    ensures |Units(d, p)| <= |d| - 1 - p
    decreases |d| - p
  {
    if p < |d| - 1 {
      DecodeAdvances(d, p);
      UnitsFit(d, DecodeAt(d, p).next);
    }
  }

  lemma UnitsNext(d: Bytes, p: nat)
    requires Terminated(d) && p < |d| - 1
    ensures p < DecodeAt(d, p).next < |d|
    ensures var r := DecodeAt(d, p);
            var us, rest := Units(d, p), Units(d, r.next);
            us == (if r.second != 0 then [r.first, r.second] else [r.first]) + rest
  {
    DecodeAdvances(d, p);
  }

  /** As much of the units as fits the buffer, the rest of which is zero. */
  ghost predicate Holds(buf: seq<nat>, us: seq<nat>) {
    forall k :: 0 <= k < |buf| ==> buf[k] == if k < |us| then us[k] else 0
  }

  /** Fills a buffer with the UTF-16 form of a string. It succeeds exactly when
      there is room for all of it; a terminating zero follows if there is room
      for that too. */
  method ConvertToUTF16Buf(d: Bytes, buf: array<nat>) returns (ok: bool)
    requires Terminated(d)
    modifies buf
    ensures ok <==> buf.Length > 0 && |Units(d, 0)| <= buf.Length
    ensures buf.Length > 0 ==> Holds(buf[..], Units(d, 0))
  {
    if buf.Length < 1 {
      return false;
    }
    for k := 0 to buf.Length
      invariant forall j :: 0 <= j < k ==> buf[j] == 0
    {
      buf[k] := 0;
    }
    ghost var us := Units(d, 0);
    var numInputBytes := |d|;
    var p, i := 0, 0;
    while d[p] != 0 && i < buf.Length
      invariant p < |d| && i <= |us| && numInputBytes == |d| - p && us[i..] == Units(d, p)
      invariant Filled(buf[..], us, i)
      decreases |d| - p
    {
      assert p < |d| - 1;
      UnitsNext(d, p);
      FirstUnits(d, p, us, i);
      var first, second, next, _ := Utf8DecodeChar(d, p, numInputBytes);
      ok, i := Store(buf, us, i, first, second);
      if !ok {
        return false;
      }
      NextUnits(d, p, us, i, first, second);
      assert next >= p;
      numInputBytes := numInputBytes - (next - p);
      p := next;
    }
    if d[p] != 0 {
      UnitsNext(d, p);
      assert numInputBytes > 1;
      return false;
    }
    return true;
  }

  /** The first `i` units are in the buffer, the rest of which is zero. */
  ghost predicate Filled(buf: seq<nat>, us: seq<nat>, i: nat)
    requires i <= |us|
  {
    i <= |buf| && forall k :: 0 <= k < |buf| ==> buf[k] == if k < i then us[k] else 0
  }

  lemma FirstUnits(d: Bytes, p: nat, us: seq<nat>, i: nat)
    requires Terminated(d) && p < |d| - 1 && i <= |us| && us[i..] == Units(d, p)
    ensures var r := DecodeAt(d, p);
            i < |us| && us[i] == r.first && (r.second != 0 ==> i + 1 < |us| && us[i + 1] == r.second)
  {
    UnitsNext(d, p);
    assert us[i] == us[i..][0];
    if DecodeAt(d, p).second != 0 { assert us[i + 1] == us[i..][1]; }
  }

  /** Stores the units of a character; the second may find no room. */
  method Store(buf: array<nat>, ghost us: seq<nat>, i0: nat, first: nat, second: nat) returns (ok: bool, i: nat)
    requires i0 < |us| && i0 < buf.Length && Filled(buf[..], us, i0) && us[i0] == first
    requires second != 0 ==> i0 + 1 < |us| && us[i0 + 1] == second
    modifies buf
    ensures i <= |us| && Filled(buf[..], us, i)
    ensures ok <==> second == 0 || i0 + 2 <= buf.Length
    ensures i == if second == 0 || !ok then i0 + 1 else i0 + 2
  {
    i := i0;
    buf[i] := first;
    i := i + 1;
    if second != 0 {
      if i >= buf.Length {
        return false, i;
      }
      buf[i] := second;
      i := i + 1;
    }
    return true, i;
  }

  lemma NextUnits(d: Bytes, p: nat, us: seq<nat>, i: nat, first: nat, second: nat)
    requires Terminated(d) && p < |d| - 1 && DecodeAt(d, p).first == first && DecodeAt(d, p).second == second
    requires p < DecodeAt(d, p).next < |d|
    requires var n := if second != 0 then 2 else 1; n <= i <= |us| && us[i - n..] == Units(d, p)
    ensures us[i..] == Units(d, DecodeAt(d, p).next)
  {
    UnitsNext(d, p);
    var n := if second != 0 then 2 else 1;
    assert us[i..] == us[i - n..][n..];
  }

  /** A buffer of one unit more than the string has bytes always suffices, and
      leaves room for the terminating zero. */
  method ConvertToUTF16(text: Bytes) returns (buf: array<nat>, ghost n: nat)
    requires forall i :: 0 <= i < |text| ==> text[i] != 0
    ensures fresh(buf) && buf.Length == |text| + 1
    ensures |Units(text + [0], 0)| < buf.Length && Holds(buf[..], Units(text + [0], 0))
    ensures n < buf.Length && buf[n] == 0
    ensures forall cs :: Encodes(text, cs) ==> ReadAs(buf[..n], cs)
  {
    buf := new nat[|text| + 1];
    var d := text + [0];
    UnitsFit(d, 0);
    var ok := ConvertToUTF16Buf(d, buf);
    assert ok;
    n := |Units(d, 0)|;
    assert buf[..n] == Units(d, 0);
    forall cs | Encodes(text, cs)
      ensures ReadAs(Units(d, 0), cs)
    {
      EncodedReads(text, cs);
    }
  }

  // ---- Well-formed strings ----

  /** The octets of a code point (section 3 of RFC 3629). */
  function Encode(c: nat): (bs: Bytes)
    requires c <= 0x10_FFFF
    ensures |bs| == EncodedLength(c)
  {
    if c <= 0x7F then [c]
    else if c <= 0x7FF then [0xC0 + c / 64, 0x80 + c % 64]
    else if c <= 0xFFFF then [0xE0 + c / 4096, 0x80 + c / 64 % 64, 0x80 + c % 64]
    else [0xF0 + c / 262144, 0x80 + c / 4096 % 64, 0x80 + c / 64 % 64, 0x80 + c % 64]
  }

  function EncodeAll(cs: seq<nat>): (bs: Bytes)
    requires forall i :: 0 <= i < |cs| ==> cs[i] <= 0x10_FFFF
  {
    if cs == [] then []
    else
      assert cs[0] <= 0x10_FFFF;
      Encode(cs[0]) + EncodeAll(cs[1..])
  }

  function Utf16All(cs: seq<nat>): seq<nat> {
    if cs == [] then [] else Utf16(cs[0]) + Utf16All(cs[1..])
  }

  /** What a code point is shown as: surrogates and the two code points that
      are no characters are replaced. */
  function Shown(c: nat): (us: seq<nat>)
    ensures c <= 0x10_FFFF ==> |us| == |Utf16(c)| && (us == Utf16(c) <==> Allowed(c))
  {
    if Allowed(c) then Utf16(c) else [REPLACEMENT]
  }

  function ShownAll(cs: seq<nat>): seq<nat> {
    if cs == [] then [] else Shown(cs[0]) + ShownAll(cs[1..])
  }

  /** The code points UTF-16 units stand for: a high surrogate and the low one
      after it make one together (section 2.2 of RFC 2781). */
  function CodePoints(us: seq<nat>): (cs: seq<nat>) {
    if us == [] then []
    else if |us| >= 2 && 0xD800 <= us[0] <= 0xDBFF && 0xDC00 <= us[1] <= 0xDFFF then
      [0x1_0000 + 0x400 * (us[0] - 0xD800) + (us[1] - 0xDC00)] + CodePoints(us[2..])
    else [us[0]] + CodePoints(us[1..])
  }

  /** Read back, the units are these code points, with the replacement character for every
      surrogate and for the two code points that are no characters. */
  predicate ReadAs(us: seq<nat>, cs: seq<nat>) {
    && |CodePoints(us)| == |cs|
    && (forall i :: 0 <= i < |cs| ==> CodePoints(us)[i] == if NoCharacter(cs[i]) then 0xFFFD else cs[i])
  }

  predicate NoCharacter(c: nat) {
    0xD800 <= c <= 0xDFFF || c == 0xFFFE || c == 0xFFFF
  }

  lemma ReadFirst(c: nat, us: seq<nat>)
    requires c <= 0x10_FFFF
    ensures CodePoints(Shown(c) + us) == [if NoCharacter(c) then 0xFFFD else c] + CodePoints(us)
  {
    assert (Shown(c) + us)[|Shown(c)|..] == us;
  }

  /** What is shown reads back as the code points. */
  lemma {:induction false} ShownReads(cs: seq<nat>)
    requires forall i :: 0 <= i < |cs| ==> cs[i] <= 0x10_FFFF
    ensures ReadAs(ShownAll(cs), cs)
  {
    if cs != [] {
      ShownReads(cs[1..]);
      ReadFirst(cs[0], ShownAll(cs[1..]));
    }
  }

  /** Replacing any code point shows. */
  lemma {:induction false} ShownIff(cs: seq<nat>)
    requires forall i :: 0 <= i < |cs| ==> cs[i] <= 0x10_FFFF
    ensures ShownAll(cs) == Utf16All(cs) <==> forall i :: 0 <= i < |cs| ==> Allowed(cs[i])
  {
    if cs != [] {
      var rest := cs[1..];
      ShownIff(rest);
      SameParts(Shown(cs[0]), ShownAll(rest), Utf16(cs[0]), Utf16All(rest));
      AllowedFirst(cs);
    }
  }

  lemma AllowedFirst(cs: seq<nat>)
    requires cs != []
    ensures (forall i :: 0 <= i < |cs| ==> Allowed(cs[i]))
            <==> Allowed(cs[0]) && forall i :: 0 <= i < |cs[1..]| ==> Allowed(cs[1..][i])
  {
    forall i | 1 <= i < |cs|
      ensures cs[i] == cs[1..][i - 1]
    {}
  }

  lemma SameParts(a: seq<nat>, b: seq<nat>, a': seq<nat>, b': seq<nat>)
    requires |a| == |a'|
    ensures a + b == a' + b' <==> a == a' && b == b'
  {
    if a + b == a' + b' {
      assert a == (a + b)[..|a|] && a' == (a' + b')[..|a|];
      assert b == (a + b)[|a|..] && b' == (a' + b')[|a|..];
    }
  }

  /** An encoded code point is decoded as such, or replaced. */
  lemma EncodedDecodes(c: nat, d: Bytes, p: nat)
    requires c <= 0x10_FFFF && At(d, p, Encode(c)) && p < |d|
    ensures var r := DecodeAt(d, p);
            && r.next == p + EncodedLength(c)
            && (if r.second != 0 then [r.first, r.second] else [r.first]) == Shown(c)
            && WholeRule(d, p, r, c)
  {
    AtByte(d, p, Encode(c), 0);
    if c > 0x7F {
      EncodedGathers(c, d, p);
    }
  }

  lemma AtByte(d: Bytes, p: nat, bs: Bytes, k: nat)
    requires At(d, p, bs) && k < |bs|
    ensures d[p + k] == bs[k]
  {
    assert d[p..p + |bs|][k] == d[p + k];
  }

  /** The six-bit digits of a code point. */
  lemma Digits(c: nat)
    requires c <= 0x10_FFFF
    ensures c == 64 * (c / 64) + c % 64
    ensures c / 64 == 64 * (c / 4096) + c / 64 % 64
    ensures c / 4096 == 64 * (c / 262144) + c / 4096 % 64
  {}

  lemma GatherNext(d: Bytes, p: nat, left: nat, acc: nat, digit: nat)
    requires p + left <= |d| && left > 0 && digit < 64 && d[p] == 0x80 + digit
    ensures Gather(d, p, left, acc) == Gather(d, p + 1, left - 1, 64 * acc + digit)
  {}

  lemma GatherTwo(d: Bytes, p: nat, a: nat, x: nat)
    requires p + 2 <= |d| && 2 <= a < 32 && x < 64 && d[p] == 0xC0 + a && d[p + 1] == 0x80 + x
    ensures Octets(d[p]) == 2 && Gather(d, p + 1, 1, LeadBits(d[p], 2)) == (true, 64 * a + x, p + 2)
  {
    GatherNext(d, p + 1, 1, a, x);
  }

  lemma GatherThree(d: Bytes, p: nat, a: nat, x: nat, y: nat)
    requires p + 3 <= |d| && a < 16 && x < 64 && y < 64
    requires d[p] == 0xE0 + a && d[p + 1] == 0x80 + x && d[p + 2] == 0x80 + y
    ensures Octets(d[p]) == 3 && Gather(d, p + 1, 2, LeadBits(d[p], 3)) == (true, 64 * (64 * a + x) + y, p + 3)
  {
    GatherNext(d, p + 1, 2, a, x);
    GatherNext(d, p + 2, 1, 64 * a + x, y);
  }

  lemma GatherFour(d: Bytes, p: nat, a: nat, x: nat, y: nat, z: nat)
    requires p + 4 <= |d| && a < 8 && x < 64 && y < 64 && z < 64
    requires d[p] == 0xF0 + a && d[p + 1] == 0x80 + x && d[p + 2] == 0x80 + y && d[p + 3] == 0x80 + z
    ensures Octets(d[p]) == 4 && Gather(d, p + 1, 3, LeadBits(d[p], 4)) == (true, 64 * (64 * (64 * a + x) + y) + z, p + 4)
  {
    GatherNext(d, p + 1, 3, a, x);
    GatherNext(d, p + 2, 2, 64 * a + x, y);
    GatherNext(d, p + 3, 1, 64 * (64 * a + x) + y, z);
  }

  lemma {:induction false} EncodedGathers(c: nat, d: Bytes, p: nat)
    requires 0x7F < c <= 0x10_FFFF && At(d, p, Encode(c))
    ensures var len := EncodedLength(c);
            Octets(d[p]) == len && Gather(d, p + 1, len - 1, LeadBits(d[p], len)) == (true, c, p + len)
  {
    var len, bs := EncodedLength(c), Encode(c);
    Digits(c);
    AtByte(d, p, bs, 0);
    AtByte(d, p, bs, 1);
    if len == 2 {
      GatherTwo(d, p, c / 64, c % 64);
    } else {
      AtByte(d, p, bs, 2);
      if len == 3 {
        GatherThree(d, p, c / 4096, c / 64 % 64, c % 64);
      } else {
        AtByte(d, p, bs, 3);
        GatherFour(d, p, c / 262144, c / 4096 % 64, c / 64 % 64, c % 64);
      }
    }
  }

  /** An encoded string becomes the UTF-16 form of the same code points exactly
      when none of them is replaced. */
  lemma {:induction false} WellFormedConverts(cs: seq<nat>, d: Bytes, p: nat)
    requires forall i :: 0 <= i < |cs| ==> 0 < cs[i] <= 0x10_FFFF
    requires Terminated(d) && p + |EncodeAll(cs)| == |d| - 1 && At(d, p, EncodeAll(cs))
    ensures Units(d, p) == ShownAll(cs)
    ensures Units(d, p) == Utf16All(cs) <==> forall i :: 0 <= i < |cs| ==> Allowed(cs[i])
    decreases |cs|
  {
    ShownIff(cs);
    if cs != [] {
      AtPart(d, p, Encode(cs[0]), EncodeAll(cs[1..]));
      EncodedDecodes(cs[0], d, p);
      UnitsNext(d, p);
      WellFormedConverts(cs[1..], d, p + EncodedLength(cs[0]));
    }
  }

  /** The bytes are the encoding of these code points. */
  ghost predicate Encodes(text: Bytes, cs: seq<nat>) {
    (forall i :: 0 <= i < |cs| ==> 0 < cs[i] <= 0x10_FFFF) && text == EncodeAll(cs)
  }

  lemma EncodedReads(text: Bytes, cs: seq<nat>)
    requires Encodes(text, cs) && forall i :: 0 <= i < |text| ==> text[i] != 0
    ensures ReadAs(Units(text + [0], 0), cs)
  {
    var d := text + [0];
    assert d[0..|text|] == text;
    WellFormedConverts(cs, d, 0);
    ShownReads(cs);
  }

  /** A face outside the basic plane. */
  lemma GrinningFace()
    ensures Terminated([0xF0, 0x9F, 0x98, 0x80, 0]) && Units([0xF0, 0x9F, 0x98, 0x80, 0], 0) == [0xD83D, 0xDE00]
  {
    var d: Bytes := [0xF0, 0x9F, 0x98, 0x80, 0];
    assert Encode(0x1_F600) == d[0..4];
    EncodedDecodes(0x1_F600, d, 0);
    UnitsNext(d, 0);
  }

  // ---- What is taken for a character, stated without saying how ----

  /** The first octet of a character of `n` octets. */
  predicate Leads(b: byte, n: nat) {
    || (n == 2 && 0xC0 <= b <= 0xDF) || (n == 3 && 0xE0 <= b <= 0xEF) || (n == 4 && 0xF0 <= b <= 0xF7)
    || (n == 5 && 0xF8 <= b <= 0xFB) || (n == 6 && 0xFC <= b <= 0xFD)
  }

  /** The replacement character stands for an octet that begins no character, or one with
      too few bytes behind it, and then for what comes before the first byte
      that does not continue a character. */
  ghost predicate BrokenRule(d: Bytes, p: nat, r: Decoded)
    requires p < |d|
  {
    && (0x80 <= d[p] <= 0xBF || 0xFE <= d[p] ==> r == Decoded(0xFFFD, 0, p + 1))
    && (forall n :: Leads(d[p], n) && p + n > |d| ==> r == Decoded(0xFFFD, 0, p + 1))
    && (forall n, i :: Leads(d[p], n) && p < i < p + n <= |d| && ContinueUpTo(d, p, i) && !(0x80 <= d[i] <= 0xBF) ==>
          r == Decoded(0xFFFD, 0, i))
  }

  predicate ContinueUpTo(d: Bytes, p: nat, i: nat)
    requires i <= |d|
  {
    forall j :: p < j < i ==> 0x80 <= d[j] <= 0xBF
  }

  /** The octets of a code point become its units, or the replacement character. */
  ghost predicate WholeRule(d: Bytes, p: nat, r: Decoded, c: nat)
    requires c <= 0x10_FFFF
  {
    && At(d, p, Encode(c)) && r.next == p + |Encode(c)|
    && (NoCharacter(c) ==> r.first == 0xFFFD && r.second == 0)
    && (c <= 0xFFFF && !NoCharacter(c) ==> r.first == c && r.second == 0)
    && (c > 0xFFFF ==> Surrogates(r.first, r.second, c))
  }

  lemma {:induction false} GatherStops(d: Bytes, p: nat, left: nat, acc: nat, i: nat)
    requires p <= i < p + left <= |d| && (forall j :: p <= j < i ==> Continues(d[j])) && !Continues(d[i])
    ensures !Gather(d, p, left, acc).0 && Gather(d, p, left, acc).2 == i
    decreases left
  {
    if p < i { GatherStops(d, p + 1, left - 1, 64 * acc + d[p] % 64, i); }
  }

  lemma DecodeBroken(d: Bytes, p: nat)
    requires p < |d|
    ensures BrokenRule(d, p, DecodeAt(d, p))
  {
    var n := Octets(d[p]);
    forall i | 2 <= n && p < i < p + n <= |d| && ContinueUpTo(d, p, i) && !Continues(d[i])
      ensures DecodeAt(d, p) == Decoded(0xFFFD, 0, i)
    {
      GatherStops(d, p + 1, n - 1, LeadBits(d[p], n), i);
    }
  }

  /** Nothing but the octets of a code point is taken for a character. */
  lemma DecodeWhole(d: Bytes, p: nat) returns (c: nat)
    requires p < |d|
    ensures c <= 0x10_FFFF
    ensures var r := DecodeAt(d, p); r == Decoded(0xFFFD, 0, r.next) || WholeRule(d, p, r, c)
  {
    c := 0;
    var n := Octets(d[p]);
    if n == 1 {
      c := d[p];
    } else if 2 <= n <= |d| - p {
      var g := Gather(d, p + 1, n - 1, LeadBits(d[p], n));
      if g.0 && EncodedLength(g.1) == n && g.1 <= 0x10_FFFF {
        c := g.1;
        GatheredIsEncoded(d, p, n, c);
      }
    }
  }

  lemma EncodeTwo(d: Bytes, p: nat, a: nat, x: nat)
    requires a < 32 && x < 64 && EncodedLength(64 * a + x) == 2
    requires p + 2 <= |d| && d[p] == 0xC0 + a && d[p + 1] == 0x80 + x
    ensures At(d, p, Encode(64 * a + x))
  {
    assert Encode(64 * a + x) == [0xC0 + a, 0x80 + x];
  }

  lemma EncodeThree(d: Bytes, p: nat, a: nat, x: nat, y: nat)
    requires a < 16 && x < 64 && y < 64 && EncodedLength(64 * (64 * a + x) + y) == 3
    requires p + 3 <= |d| && d[p] == 0xE0 + a && d[p + 1] == 0x80 + x && d[p + 2] == 0x80 + y
    ensures At(d, p, Encode(64 * (64 * a + x) + y))
  {
    var c := 64 * (64 * a + x) + y;
    assert c / 64 == 64 * a + x;
    assert Encode(c) == [0xE0 + a, 0x80 + x, 0x80 + y];
  }

  lemma EncodeFour(d: Bytes, p: nat, a: nat, x: nat, y: nat, z: nat)
    requires a < 8 && x < 64 && y < 64 && z < 64
    requires var c := 64 * (64 * (64 * a + x) + y) + z; EncodedLength(c) == 4 && c <= 0x10_FFFF
    requires p + 4 <= |d| && d[p] == 0xF0 + a && d[p + 1] == 0x80 + x && d[p + 2] == 0x80 + y && d[p + 3] == 0x80 + z
    ensures At(d, p, Encode(64 * (64 * (64 * a + x) + y) + z))
  {
    var c := 64 * (64 * (64 * a + x) + y) + z;
    assert c / 64 == 64 * (64 * a + x) + y;
    assert c / 4096 == 64 * a + x;
    assert Encode(c) == [0xF0 + a, 0x80 + x, 0x80 + y, 0x80 + z];
  }

  lemma GatheredTwo(d: Bytes, p: nat, c: nat)
    requires p + 2 <= |d| && Octets(d[p]) == 2 && Continues(d[p + 1]) && EncodedLength(c) == 2
    requires Gather(d, p + 1, 1, LeadBits(d[p], 2)).1 == c
    ensures At(d, p, Encode(c))
  {
    GatherTwo(d, p, d[p] - 0xC0, d[p + 1] - 0x80);
    EncodeTwo(d, p, d[p] - 0xC0, d[p + 1] - 0x80);
  }

  lemma GatheredThree(d: Bytes, p: nat, c: nat)
    requires p + 3 <= |d| && Octets(d[p]) == 3 && Continues(d[p + 1]) && Continues(d[p + 2]) && EncodedLength(c) == 3
    requires Gather(d, p + 1, 2, LeadBits(d[p], 3)).1 == c
    ensures At(d, p, Encode(c))
  {
    GatherThree(d, p, d[p] - 0xE0, d[p + 1] - 0x80, d[p + 2] - 0x80);
    EncodeThree(d, p, d[p] - 0xE0, d[p + 1] - 0x80, d[p + 2] - 0x80);
  }

  lemma GatheredFour(d: Bytes, p: nat, c: nat)
    requires p + 4 <= |d| && Octets(d[p]) == 4 && EncodedLength(c) == 4 && c <= 0x10_FFFF
    requires Continues(d[p + 1]) && Continues(d[p + 2]) && Continues(d[p + 3])
    requires Gather(d, p + 1, 3, LeadBits(d[p], 4)).1 == c
    ensures At(d, p, Encode(c))
  {
    GatherFour(d, p, d[p] - 0xF0, d[p + 1] - 0x80, d[p + 2] - 0x80, d[p + 3] - 0x80);
    EncodeFour(d, p, d[p] - 0xF0, d[p + 1] - 0x80, d[p + 2] - 0x80, d[p + 3] - 0x80);
  }

  /** What is gathered from a character of the right length are its octets. */
  lemma GatheredIsEncoded(d: Bytes, p: nat, n: nat, c: nat)
    requires p < |d| && 2 <= n == Octets(d[p]) <= |d| - p
    requires Gather(d, p + 1, n - 1, LeadBits(d[p], n)) == (true, c, p + n) && EncodedLength(c) == n && c <= 0x10_FFFF
    ensures At(d, p, Encode(c))
  {
    assert forall k :: p < k < p + n ==> Continues(d[k]);
    if n == 2 {
      GatheredTwo(d, p, c);
    } else if n == 3 {
      GatheredThree(d, p, c);
    } else {
      GatheredFour(d, p, c);
    }
  }
}
