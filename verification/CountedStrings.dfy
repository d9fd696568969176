/** Strings preceded by their length (`ReadCountedString` and
    `WriteCountedString` in mp4v2/src/mp4file_io.cpp). */
module CountedStrings {
  import opened Wrappers
  import opened Numbers
  import opened ByteFile

  /** A count in as many bytes of 255 as it takes, and the rest. */
  function CountBytes(n: nat): (bs: Bytes)
    ensures |bs| == n / 255 + 1
  {
    if n >= 255 then [255] + CountBytes(n - 255) else [n]
  }

  lemma {:induction false} CountBytesAre(n: nat)
    ensures var bs := CountBytes(n);
            bs[|bs| - 1] == n % 255 && forall i :: 0 <= i < |bs| - 1 ==> bs[i] == 255
  {
    if n >= 255 { CountBytesAre(n - 255); }
  }

  /** At most 25 bytes of a count are read: the count, and the bytes it takes,
      when `ix` bytes have given `total` so far. */
  function CountAt(d: Bytes, total: nat, ix: nat): (r: Option<(nat, nat)>)
    ensures r.Some? ==> ix < r.value.1 <= 25 && r.value.1 - ix <= |d|
    decreases |d|
  {
    if d == [] || ix + 1 > 25 then None
    else if d[0] == 255 then CountAt(d[1..], total + 255, ix + 1)
    else Some((total + d[0], ix + 1))
  }

  /** How much of a string fits a field of a fixed length, if it has one: all of
      it, or what leaves one byte for the count. */
  function Kept(n: nat, fixedLength: nat): (k: nat)
    ensures k <= n && (fixedLength == 0 ==> k == n)
    ensures fixedLength > 0 ==> k < fixedLength && (k < n ==> k + 1 == fixedLength)
  {
    if fixedLength > 0 && n >= fixedLength then fixedLength - 1 else n
  }

  /** What fills such a field up, behind a count of one byte. */
  function PadLength(byteLength: nat, fixedLength: nat): (p: nat)
    ensures byteLength < fixedLength ==> 1 + byteLength + p == fixedLength
    ensures byteLength >= fixedLength ==> p == 0
  {
    if byteLength + 1 < fixedLength then fixedLength - 1 - byteLength else 0
  }

  /** What is written for a string; nothing if its length needs more than the
      one byte allowed. */
  function Counted(s: Bytes, charSize: nat, expanded: bool, fixedLength: nat): (r: Option<Bytes>)
    requires charSize > 0
  {
    var byteLength := Kept(|s|, fixedLength);
    var charLength := byteLength / charSize;
    if !expanded && charLength > 255 then None
    else
      Some((if expanded then CountBytes(charLength) else [charLength]) + s[..byteLength] + Zeros(PadLength(byteLength, fixedLength)))
  }

  /** What is read of a string: its bytes, and the bytes it takes with its count
      and its padding. The width of the padding wraps at 256. */
  function StringAt(d: Bytes, charSize: nat, expanded: bool, fixedLength: nat): (r: Option<(Bytes, nat)>)
    requires charSize > 0 && fixedLength < 256
  {
    var count := if expanded then CountAt(d, 0, 0) else if d == [] then None else Some((d[0], 1));
    if count == None then None
    else
      var byteLength := Kept(count.value.0, fixedLength) * charSize;
      var pad := if fixedLength > 0 then (fixedLength - byteLength - 1) % 256 else 0;
      var start := count.value.1;
      NonNegative(Kept(count.value.0, fixedLength), charSize);
      if start + byteLength + pad > |d| then None
      else Some((d[start..start + byteLength], start + byteLength + pad))
  }

  /** Two characters in a field of five bytes: count, characters, padding. */
  lemma TwoInFive()
    ensures Counted([0x61, 0x62], 1, false, 5) == Some([2, 0x61, 0x62, 0, 0])
  {
    assert [2] + [0x61, 0x62][..2] + Zeros(2) == [2, 0x61, 0x62, 0, 0];
  }

  lemma {:induction false} CountRead(n: nat, total: nat, ix: nat, rest: Bytes)
    ensures CountAt(CountBytes(n) + rest, total, ix)
         == if ix + n / 255 + 1 > 25 then None else Some((total + n, ix + n / 255 + 1))
    decreases n
  {
    if n >= 255 && ix + 1 <= 25 {
      var d := CountBytes(n) + rest;
      assert d[1..] == CountBytes(n - 255) + rest;
      CountRead(n - 255, total + 255, ix + 1, rest);
    }
  }

  /** An expanded string reads back exactly when it consists of whole
      characters, at most 6374 of them: the count then takes at most 25 bytes. */
  lemma ExpandedRoundTrip(s: Bytes, charSize: nat, rest: Bytes)
    requires charSize > 0
    ensures var w := Counted(s, charSize, true, 0);
            && w.Some?
            && (StringAt(w.value + rest, charSize, true, 0) == Some((s, |w.value|))
                <==> |s| % charSize == 0 && |s| / charSize <= 6374)
  {
    var n, w := |s| / charSize, Counted(s, charSize, true, 0).value;
    assert |s| == charSize * n + |s| % charSize;
    NonNegative(n, charSize);
    CountRead(n, 0, 0, s + rest);
    assert w == CountBytes(n) + s by { assert s[..|s|] == s && CountBytes(n) + s + Zeros(0) == CountBytes(n) + s; }
    Concatenate(CountBytes(n), s, rest);
    var d := w + rest;
    if n / 255 + 1 <= 25 {
      var start := n / 255 + 1;
      assert d[start..start + n * charSize] == s[..n * charSize];
    }
  }

  /** Without an expanded count the string must have at most 255 characters to
      be written at all, and then reads back exactly when they are whole. */
  lemma PlainRoundTrip(s: Bytes, charSize: nat, rest: Bytes)
    requires charSize > 0
    ensures var w := Counted(s, charSize, false, 0);
            && (w.Some? <==> |s| / charSize <= 255)
            && (w.Some? ==> (StringAt(w.value + rest, charSize, false, 0) == Some((s, |w.value|)) <==> |s| % charSize == 0))
  {
    var n := |s| / charSize;
    assert |s| == charSize * n + |s| % charSize;
    NonNegative(n, charSize);
    if n <= 255 {
      var w := Counted(s, charSize, false, 0).value;
      assert w == [n] + s by { assert s[..|s|] == s && [n] + s + Zeros(0) == [n] + s; }
      var d := w + rest;
      assert d[1..1 + n * charSize] == s[..n * charSize];
    }
  }

  /** A field of fixed length takes exactly that many bytes, in either form of
      the count, and gives back the whole characters of what fits into it: all
      of the string exactly when it is short enough and has whole characters. */
  lemma FixedRoundTrip(s: Bytes, charSize: nat, expanded: bool, fixedLength: nat, rest: Bytes)
    requires charSize > 0 && 0 < fixedLength < 256
    ensures var w := Counted(s, charSize, expanded, fixedLength);
            && w.Some? && |w.value| == fixedLength
            && StringAt(w.value + rest, charSize, expanded, fixedLength) == Some((WholePart(s, charSize, fixedLength), fixedLength))
    ensures WholePart(s, charSize, fixedLength) == s <==> |s| < fixedLength && |s| % charSize == 0
  {
    var k := Kept(|s|, fixedLength);
    var n := k / charSize;
    WholeCharacters(k, charSize);
    var w := [n] + s[..k] + Zeros(PadLength(k, fixedLength));
    assert CountBytes(n) == [n];
    assert Counted(s, charSize, expanded, fixedLength) == Some(w);
    FixedRead(w + rest, n, charSize, expanded, fixedLength);
    assert (w + rest)[1..1 + n * charSize] == s[..n * charSize];
  }

  /** The whole characters of what a field of fixed length keeps. */
  function WholePart(s: Bytes, charSize: nat, fixedLength: nat): (r: Bytes)
    requires charSize > 0
  {
    var k := Kept(|s|, fixedLength);
    WholeCharacters(k, charSize);
    s[..k / charSize * charSize]
  }

  lemma WholeCharacters(k: nat, charSize: nat)
    requires charSize > 0
    ensures 0 <= k / charSize <= k / charSize * charSize <= k
    ensures k / charSize * charSize == k <==> k % charSize == 0
  {
    assert k == charSize * (k / charSize) + k % charSize;
    QuotientNatural(k, charSize);
    if k / charSize > 0 { MulStrict(k / charSize, 1, charSize); }
  }

  lemma FixedRead(d: Bytes, n: nat, charSize: nat, expanded: bool, fixedLength: nat)
    requires charSize > 0 && n < 255 && n < fixedLength < 256 && 0 <= n * charSize < fixedLength
    requires |d| >= fixedLength && d[0] == n
    ensures StringAt(d, charSize, expanded, fixedLength) == Some((d[1..1 + n * charSize], fixedLength))
  {}

  method WriteCount(f: File, count: nat, expanded: bool) returns (ok: bool)
    modifies f
    ensures ok <==> expanded || count <= 255
    ensures ok ==> var bs := if expanded then CountBytes(count) else [count];
                   f.data == Put(old(f.data), old(f.pos), bs) && f.pos == old(f.pos) + |bs|
    ensures !ok ==> f.data == old(f.data) && f.pos == old(f.pos)
  {
    if !expanded && count > 255 {
      return false;
    }
    ghost var d0, p0 := f.data, f.pos;
    var charLength := count;
    ghost var written: Bytes := [];
    while expanded && charLength >= 255
      invariant Wrote(f.data, f.pos, d0, p0, written)
      invariant expanded ==> written + CountBytes(charLength) == CountBytes(count)
      invariant !expanded ==> charLength == count && written == []
      decreases charLength
    {
      Concatenate(written, [255], CountBytes(charLength - 255));
      WriteMore(f, [255], d0, p0, written);
      written := written + [255];
      charLength := charLength - 255;
    }
    assert written + [charLength] == if expanded then CountBytes(count) else [count];
    WriteMore(f, [charLength], d0, p0, written);
    return true;
  }

  method WriteCountedString(f: File, s: Bytes, charSize: nat, expanded: bool, fixedLength: nat) returns (ok: bool)
    requires charSize > 0
    modifies f
    ensures ok <==> Counted(s, charSize, expanded, fixedLength).Some?
    ensures ok ==> var bs := Counted(s, charSize, expanded, fixedLength).value;
                   f.data == Put(old(f.data), old(f.pos), bs) && f.pos == old(f.pos) + |bs|
  {
    var byteLength := |s|;
    if fixedLength > 0 && byteLength >= fixedLength {
      byteLength := fixedLength - 1;
    }
    QuotientNatural(byteLength, charSize);
    ok := WriteParts(f, byteLength / charSize, expanded, s[..byteLength], fixedLength);
  }

  /** The count, the bytes kept, and the padding. */
  method WriteParts(f: File, charLength: nat, expanded: bool, kept: Bytes, fixedLength: nat) returns (ok: bool)
    modifies f
    ensures ok <==> expanded || charLength <= 255
    ensures ok ==> var bs := (if expanded then CountBytes(charLength) else [charLength]) + kept + Zeros(PadLength(|kept|, fixedLength));
                   f.data == Put(old(f.data), old(f.pos), bs) && f.pos == old(f.pos) + |bs|
  {
    ghost var d0, p0 := f.data, f.pos;
    ok := WriteCount(f, charLength, expanded);
    if ok {
      ghost var count := if expanded then CountBytes(charLength) else [charLength];
      WriteMore(f, kept, d0, p0, count);
      WritePadding(f, |kept|, fixedLength, d0, p0, count + kept);
    }
  }

  method WritePadding(f: File, byteLength: nat, fixedLength: nat, ghost d0: Bytes, ghost p0: nat, ghost front: Bytes)
    requires Wrote(f.data, f.pos, d0, p0, front)
    modifies f
    ensures Wrote(f.data, f.pos, d0, p0, front + Zeros(PadLength(byteLength, fixedLength)))
  {
    ghost var k := 0;
    assert front + Zeros(0) == front;
    var n := byteLength;
    if fixedLength > 0 {
      while n < fixedLength - 1
        invariant n == byteLength + k && (n <= fixedLength - 1 || k == 0)
        invariant Wrote(f.data, f.pos, d0, p0, front + Zeros(k))
      {
        ZerosNext(front, k);
        WriteMore(f, [0], d0, p0, front + Zeros(k));
        n, k := n + 1, k + 1;
      }
    }
  }

  lemma ZerosNext(front: Bytes, k: nat)
    ensures front + Zeros(k) + [0] == front + Zeros(k + 1)
  {}

  method ReadCount(f: File, expanded: bool) returns (r: Option<nat>)
    requires f.pos <= |f.data|
    modifies f`pos
    ensures var d := f.data[old(f.pos)..];
            var c := if expanded then CountAt(d, 0, 0) else if d == [] then None else Some((d[0], 1));
            && (r.Some? <==> c.Some?)
            && (r.Some? ==> r.value == c.value.0 && f.pos == old(f.pos) + c.value.1)
  {
    if !expanded {
      var b := f.ReadBytes(1);
      return if b == None then None else Some(b.value[0]);
    }
    var charLength: nat, ix: nat := 0, 0;
    while true
      invariant f.pos == old(f.pos) + ix <= |f.data| && ix <= 25
      invariant CountAt(f.data[old(f.pos)..], 0, 0) == CountAt(f.data[f.pos..], charLength, ix)
      decreases |f.data| - f.pos
    {
      assert f.pos < |f.data| ==> f.data[f.pos..][1..] == f.data[f.pos + 1..];
      var b := f.ReadBytes(1);
      if b == None {
        return None;
      }
      ix := ix + 1;
      if ix > 25 {
        return None;
      }
      charLength := charLength + b.value[0];
      if b.value[0] != 255 {
        return Some(charLength);
      }
    }
  }

  method ReadCountedString(f: File, charSize: nat, expanded: bool, fixedLength: nat) returns (r: Option<Bytes>)
    requires charSize > 0 && fixedLength < 256 && f.pos <= |f.data|
    modifies f`pos
    ensures var s := StringAt(f.data[old(f.pos)..], charSize, expanded, fixedLength);
            && (r.Some? <==> s.Some?)
            && (r.Some? ==> r.value == s.value.0 && f.pos == old(f.pos) + s.value.1)
  {
    ghost var d, p0 := f.data[f.pos..], f.pos;
    var count := ReadCount(f, expanded);
    if count == None {
      return None;
    }
    var charLength := count.value;
    if fixedLength > 0 && charLength >= fixedLength {
      charLength := fixedLength - 1;
    }
    NonNegative(charLength, charSize);
    var byteLength := charLength * charSize;
    ghost var start := f.pos - p0;
    r := ReadBody(f, byteLength, fixedLength);
    assert r.Some? ==> r.value == d[start..start + byteLength];
  }

  method ReadBody(f: File, byteLength: nat, fixedLength: nat) returns (r: Option<Bytes>)
    requires fixedLength < 256 && f.pos <= |f.data|
    modifies f`pos
    ensures var pad := if fixedLength > 0 then (fixedLength - byteLength - 1) % 256 else 0;
            && (r.Some? <==> old(f.pos) + byteLength + pad <= |f.data|)
            && (r.Some? ==> r.value == f.data[old(f.pos)..old(f.pos) + byteLength] && f.pos == old(f.pos) + byteLength + pad)
  {
    r := f.ReadBytes(byteLength);
    if r == None {
      return;
    }
    if fixedLength > 0 {
      var padsize := (fixedLength - byteLength - 1) % 256;
      var padbuf := f.ReadBytes(padsize);
      if padbuf == None {
        return None;
      }
    }
  }
}
