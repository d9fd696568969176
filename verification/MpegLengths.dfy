/** The lengths of descriptors (section 8.3.3 of ISO/IEC 14496-1): seven bits
    a byte, the eighth saying whether another byte follows
    (`ReadMpegLength` and `WriteMpegLength` in mp4v2/src/mp4file_io.cpp). */
module MpegLengths {
  import opened Wrappers
  import opened ByteFile

  const MAX_LENGTH: int := 0x0FFF_FFFF

  function Pow128(k: nat): (p: nat)
    ensures p > 0
  {
    if k == 0 then 1 else 128 * Pow128(k - 1)
  }

  /** `v` shifted right by seven bits `k` times. */
  function Shift7(v: nat, k: nat): nat {
    if k == 0 then v else Shift7(v / 128, k - 1)
  }

  lemma {:induction false} ShiftNext(v: nat, k: nat)
    requires k > 0
    ensures Shift7(v, k - 1) / 128 == Shift7(v, k)
  {
    if k > 1 { ShiftNext(v / 128, k - 1); }
  }

  /** `n` bytes that each announce another one. */
  function Heads(v: nat, n: nat): (bs: Bytes)
    ensures |bs| == n
  {
    if n == 0 then [] else Heads(v / 128, n - 1) + [128 + v % 128]
  }

  /** A length in `n` bytes. */
  function LengthBytes(v: nat, n: nat): (bs: Bytes)
    requires n > 0
    ensures |bs| == n
  {
    Heads(v / 128, n - 1) + [v % 128]
  }

  lemma {:induction false} HeadAt(v: nat, n: nat, i: nat)
    requires i < n
    ensures Heads(v, n)[i] == 128 + v / Pow128(n - 1 - i) % 128
  {
    if i < n - 1 {
      HeadAt(v / 128, n - 1, i);
      DivideTwice(v, 128, Pow128(n - 2 - i));
    }
  }

  /** Each byte holds seven bits, the highest first, and all but the last have
      their eighth bit set. */
  lemma LengthByteAt(v: nat, n: nat, i: nat)
    requires i < n
    ensures LengthBytes(v, n)[i] == v / Pow128(n - 1 - i) % 128 + if i < n - 1 then 128 else 0
  {
    if i < n - 1 {
      HeadAt(v / 128, n - 1, i);
      DivideTwice(v, 128, Pow128(n - 2 - i));
    }
  }

  /** Three hundred in two bytes and in four. */
  lemma ThreeHundred()
    ensures LengthBytes(300, 2) == [0x82, 0x2C] && LengthBytes(300, 4) == [0x80, 0x80, 0x82, 0x2C] && CompactSize(300) == 2
  {
    assert Heads(2, 1) == [] + [0x82];
    assert Heads(2, 3) == Heads(0, 2) + [0x82] && Heads(0, 2) == Heads(0, 1) + [0x80] && Heads(0, 1) == [] + [0x80];
  }

  /** What is read from `d` when `k` bytes have given `length` so far: the
      length, and the bytes it takes. */
  function LengthAt(d: Bytes, length: nat, k: nat): (r: Option<(nat, nat)>)
    requires k < 4
    ensures r.Some? ==> k < r.value.1 <= 4 && r.value.1 - k <= |d|
  {
    if d == [] then None
    else
      var l := 128 * length + d[0] % 128;
      if d[0] >= 128 && k + 1 < 4 then LengthAt(d[1..], l, k + 1) else Some((l, k + 1))
  }

  lemma {:induction false} HeadsRead(v: nat, n: nat, rest: Bytes)
    requires n < 4 && v < Pow128(n)
    ensures LengthAt(Heads(v, n) + rest, 0, 0) == LengthAt(rest, v, n)
  {
    if n == 0 {
      assert Heads(v, 0) + rest == rest;
    } else {
      var b := 128 + v % 128;
      HeadsRead(v / 128, n - 1, [b] + rest);
      Concatenate(Heads(v / 128, n - 1), [b], rest);
      assert ([b] + rest)[1..] == rest;
    }
  }

  /** A length written in any number of bytes that can hold it is read back. */
  lemma LengthRoundTrip(v: nat, n: nat, rest: Bytes)
    requires 1 <= n <= 4 && v < Pow128(n)
    ensures LengthAt(LengthBytes(v, n) + rest, 0, 0) == Some((v, n))
  {
    HeadsRead(v / 128, n - 1, [v % 128] + rest);
    Concatenate(Heads(v / 128, n - 1), [v % 128], rest);
  }

  lemma {:induction false} LengthBound(d: Bytes, length: nat, k: nat)
    requires k < 4 && length < Pow128(k) && LengthAt(d, length, k).Some?
    ensures LengthAt(d, length, k).value.0 < Pow128(LengthAt(d, length, k).value.1)
    decreases 4 - k
  {
    var l := 128 * length + d[0] % 128;
    if d[0] >= 128 && k + 1 < 4 { LengthBound(d[1..], l, k + 1); }
  }

  /** The bytes the compact form takes. */
  function CompactSize(v: nat): (n: nat)
    ensures 1 <= n <= 4
  {
    if v <= 0x7F then 1 else if v <= 0x3FFF then 2 else if v <= 0x1F_FFFF then 3 else 4
  }

  lemma Powers()
    ensures Pow128(1) == 0x80 && Pow128(2) == 0x4000 && Pow128(3) == 0x20_0000 && Pow128(4) == 0x1000_0000
  {
    assert Pow128(2) == 128 * Pow128(1);
  }

  /** The compact form holds every length, and no bytes at all that read as a
      length are fewer. */
  lemma CompactIsShortest(v: nat, d: Bytes)
    requires v <= MAX_LENGTH
    ensures v < Pow128(CompactSize(v))
    ensures LengthAt(d, 0, 0).Some? && LengthAt(d, 0, 0).value.0 == v ==> CompactSize(v) <= LengthAt(d, 0, 0).value.1
  {
    Powers();
    if LengthAt(d, 0, 0).Some? {
      LengthBound(d, 0, 0);
    }
  }

  method ReadMpegLength(f: File) returns (r: Option<nat>)
    requires f.pos <= |f.data|
    modifies f`pos
    ensures var l := LengthAt(f.data[old(f.pos)..], 0, 0);
            && (r.Some? <==> l.Some?)
            && (r.Some? ==> r.value == l.value.0 && f.pos == old(f.pos) + l.value.1)
  {
    var length: nat, numBytes: nat, more := 0, 0, true;
    while more && numBytes < 4
      invariant 0 <= numBytes <= 4 && f.pos == old(f.pos) + numBytes <= |f.data|
      invariant LengthAt(f.data[old(f.pos)..], 0, 0) ==
                if more && numBytes < 4 then LengthAt(f.data[f.pos..], length, numBytes) else Some((length, numBytes))
      decreases 4 - numBytes
    {
      assert f.pos < |f.data| ==> f.data[f.pos..][1..] == f.data[f.pos + 1..];
      var b := f.ReadBytes(1);
      if b == None {
        return None;
      }
      length := length * 128 + b.value[0] % 128;
      numBytes := numBytes + 1;
      more := b.value[0] >= 128;
    }
    r := Some(length);
  }

  /** The bytes of a length written so far, when `i` are left. */
  function Written(v: nat, n: nat, i: nat): (bs: Bytes)
    requires i <= n && n > 0
  {
    if i == 0 then LengthBytes(v, n) else Heads(Shift7(v, i), n - i)
  }

  lemma WrittenNext(v: nat, n: nat, i: nat)
    requires 0 < i <= n
    ensures Written(v, n, i - 1) == Written(v, n, i) + [Shift7(v, i - 1) % 128 + if i > 1 then 128 else 0]
    ensures Written(v, n, n) == []
  {
    ShiftNext(v, i);
  }

  /** Writes a length where the file stands, in four bytes or as few as can
      hold it; a length over 28 bits is refused. */
  method WriteMpegLength(f: File, value: nat, compact: bool) returns (ok: bool)
    modifies f
    ensures ok <==> value <= MAX_LENGTH
    ensures ok ==> var bs := LengthBytes(value, if compact then CompactSize(value) else 4);
                   f.data == Put(old(f.data), old(f.pos), bs) && f.pos == old(f.pos) + |bs|
    ensures !ok ==> f.data == old(f.data) && f.pos == old(f.pos)
  {
    if value > MAX_LENGTH {
      return false;
    }
    var numBytes := if compact then CompactSize(value) else 4;
    ghost var d0, p0 := f.data, f.pos;
    var i := numBytes;
    WrittenNext(value, numBytes, numBytes);
    while i > 0
      invariant 0 <= i <= numBytes
      invariant Wrote(f.data, f.pos, d0, p0, Written(value, numBytes, i))
    {
      WrittenNext(value, numBytes, i);
      i := i - 1;
      var b := Shift7(value, i) % 128 + if i > 0 then 128 else 0;
      WriteMore(f, [b], d0, p0, Written(value, numBytes, i + 1));
    }
    return true;
  }
}
