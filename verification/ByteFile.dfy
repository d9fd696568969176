/** Byte strings, big-endian integers, and a file held in memory: a byte
    string with a position (mp4v2/src/mp4file_io.cpp). */
module ByteFile {
  import opened Numbers
  import opened Wrappers

  type byte = x: int | 0 <= x < 256

  type Bytes = seq<byte>

  // ---- Big-endian integers ----

  function Pow256(k: nat): (p: nat)
    ensures p > 0
  {
    if k == 0 then 1 else 256 * Pow256(k - 1)
  }

  /** The last `k` base-256 digits of `n`, most significant first. */
  function BigEndian(n: nat, k: nat): (bs: Bytes)
    ensures |bs| == k
  {
    if k == 0 then [] else BigEndian(n / 256, k - 1) + [n % 256]
  }

  function Number(bs: Bytes): nat {
    if bs == [] then 0 else 256 * Number(bs[..|bs| - 1]) + bs[|bs| - 1]
  }

  lemma {:induction false} NumberOfBigEndian(n: nat, k: nat)
    requires n < Pow256(k)
    ensures Number(BigEndian(n, k)) == n
  {
    if k > 0 {
      NumberOfBigEndian(n / 256, k - 1);
      var front := BigEndian(n / 256, k - 1);
      assert (front + [n % 256])[..k - 1] == front;
    }
  }

  lemma {:induction false} BigEndianOfNumber(bs: Bytes)
    ensures Number(bs) < Pow256(|bs|) && BigEndian(Number(bs), |bs|) == bs
  {
    if bs != [] {
      BigEndianOfNumber(bs[..|bs| - 1]);
      assert bs == bs[..|bs| - 1] + [bs[|bs| - 1]];
    }
  }

  /** In plain numbers: the first byte counts most. */
  lemma FourBytes(bs: Bytes)
    requires |bs| == 4
    ensures var a: nat, b: nat, c: nat, d: nat := bs[0], bs[1], bs[2], bs[3];
            Number(bs) == 0x100_0000 * a + 0x1_0000 * b + 0x100 * c + d
  {
    var a: nat, b: nat, c: nat := bs[0], bs[1], bs[2];
    assert bs[..3][..2] == bs[..2] && bs[..2][..1] == bs[..1] && bs[..1][..0] == [];
    assert Number(bs[..1]) == a && Number(bs[..2]) == 0x100 * a + b;
    assert Number(bs[..3]) == 0x1_0000 * a + 0x100 * b + c;
  }

  /** Each byte is a base-256 digit, the highest of the last `k` first. */
  lemma {:induction false} DigitAt(n: nat, k: nat, i: nat)
    requires i < k
    ensures BigEndian(n, k)[i] == n / Pow256(k - 1 - i) % 256
  {
    if i < k - 1 {
      DigitAt(n / 256, k - 1, i);
      DivideTwice(n, 256, Pow256(k - 2 - i));
    }
  }

  lemma DivideTwice(n: nat, a: nat, b: nat)
    requires a > 0 && b > 0
    ensures a * b > 0 && n / a / b == n / (a * b)
  {
    var m := n / a;
    var q, s, r := m / b, m % b, n % a;
    assert m == b * q + s && n == a * m + r;
    Distribute(a, b * q, s);
    Associate(a, b, q);
    MulStrict(a, 0, b);
    MulStrict(a, s, b);
    MulStrict(a, 0, s);
    DivModUnique(n, a * b, q, a * s + r);
  }

  const MAX32: int := 0xFFFF_FFFF
  const TWO64: int := 0x1_0000_0000_0000_0000

  lemma Widths()
    ensures Pow256(4) == MAX32 + 1 && Pow256(8) == TWO64
  {
    assert Pow256(2) == 65536 && Pow256(4) == 65536 * Pow256(2);
    assert Pow256(6) == 65536 * Pow256(4) && Pow256(8) == 65536 * Pow256(6);
  }

  /** Four- and eight-byte fields. */
  function U32(n: nat): (bs: Bytes)
    ensures |bs| == 4
    ensures n <= MAX32 ==> Number(bs) == n
  {
    Widths();
    if n <= MAX32 then NumberOfBigEndian(n, 4); BigEndian(n, 4) else BigEndian(n, 4)
  }

  function U64(n: nat): (bs: Bytes)
    ensures |bs| == 8
    ensures n < TWO64 ==> Number(bs) == n
  {
    Widths();
    if n < TWO64 then NumberOfBigEndian(n, 8); BigEndian(n, 8) else BigEndian(n, 8)
  }

  // ---- Overwriting ----

  function Zeros(n: nat): (bs: Bytes)
    ensures |bs| == n && forall i :: 0 <= i < n ==> bs[i] == 0
  {
    seq(n, _ => 0)
  }

  /** The first `pos` bytes of a file; a gap beyond its end reads as zeros. */
  function Upto(d: Bytes, pos: nat): (r: Bytes)
    ensures |r| == pos
  {
    if pos <= |d| then d[..pos] else d + Zeros(pos - |d|)
  }

  /** The file after `bs` is written at `pos`. */
  function Put(d: Bytes, pos: nat, bs: Bytes): (r: Bytes) {
    if bs == [] then d else Upto(d, pos) + bs + (if pos + |bs| < |d| then d[pos + |bs|..] else [])
  }

  /** What a write leaves at each place: the bytes written, those there were
      before and behind, and zeros in a gap. */
  lemma PutBytes(d: Bytes, pos: nat, bs: Bytes)
    requires bs != []
    ensures var r := Put(d, pos, bs);
            && |r| == (if pos + |bs| < |d| then |d| else pos + |bs|)
            && (forall i :: pos <= i < pos + |bs| ==> r[i] == bs[i - pos])
            && (forall i :: 0 <= i < |d| && !(pos <= i < pos + |bs|) ==> r[i] == d[i])
            && (forall i :: |d| <= i < pos ==> r[i] == 0)
  {}

  lemma Concatenate(a: Bytes, b: Bytes, c: Bytes)
    ensures a + b + c == a + (b + c)
  {}

  /** Two writes in a row are one. */
  lemma PutAppend(d: Bytes, pos: nat, a: Bytes, b: Bytes)
    ensures Put(Put(d, pos, a), pos + |a|, b) == Put(d, pos, a + b)
  {
    if a == [] {
      assert a + b == b;
    } else if b == [] {
      assert a + b == a;
    } else {
      var r := Put(d, pos, a);
      assert Upto(r, pos + |a|) == Upto(d, pos) + a;
      assert Upto(d, pos) + a + b == Upto(d, pos) + (a + b);
    }
  }

  /** Writing over part of what was just written. */
  lemma PutPatch(d: Bytes, pos: nat, a: Bytes, old_: Bytes, new_: Bytes, b: Bytes)
    requires |old_| == |new_|
    ensures Put(Put(d, pos, a + old_ + b), pos + |a|, new_) == Put(d, pos, a + new_ + b)
  {
    if new_ != [] {
      var r := Put(d, pos, a + old_ + b);
      var tail := if pos + |a + old_ + b| < |d| then d[pos + |a + old_ + b|..] else [];
      assert r == Upto(d, pos) + a + old_ + b + tail;
      assert Upto(r, pos + |a|) == Upto(d, pos) + a;
      assert r[pos + |a| + |new_|..] == b + tail;
      assert Upto(d, pos) + a + new_ + (b + tail) == Upto(d, pos) + (a + new_ + b) + tail;
    } else {
      assert a + old_ + b == a + new_ + b;
    }
  }

  lemma PutPatchStart(d: Bytes, pos: nat, old_: Bytes, new_: Bytes, b: Bytes)
    requires |old_| == |new_|
    ensures Put(Put(d, pos, old_ + b), pos, new_) == Put(d, pos, new_ + b)
  {
    var a := Zeros(0);
    EmptyFront(a, old_);
    EmptyFront(a, new_);
    PutPatch(d, pos, a, old_, new_, b);
  }

  lemma EmptyFront(a: Bytes, b: Bytes)
    requires |a| == 0
    ensures a + b == b
  {}

  /** `bs` stands at `pos`. */
  predicate At(d: Bytes, pos: nat, bs: Bytes) {
    pos + |bs| <= |d| && d[pos..pos + |bs|] == bs
  }

  lemma PutAt(d: Bytes, pos: nat, bs: Bytes)
    ensures bs != [] ==> At(Put(d, pos, bs), pos, bs)
  {}

  lemma AtPart(d: Bytes, pos: nat, a: Bytes, b: Bytes)
    requires At(d, pos, a + b)
    ensures At(d, pos, a) && At(d, pos + |a|, b)
  {
    assert (a + b)[..|a|] == a && (a + b)[|a|..] == b;
    assert d[pos..pos + |a + b|][..|a|] == d[pos..pos + |a|];
    assert d[pos..pos + |a + b|][|a|..] == d[pos + |a|..pos + |a + b|];
  }

  lemma AtJoin(d: Bytes, pos: nat, a: Bytes, b: Bytes)
    requires At(d, pos, a) && At(d, pos + |a|, b)
    ensures At(d, pos, a + b)
  {
    assert d[pos..pos + |a| + |b|] == d[pos..pos + |a|] + d[pos + |a|..pos + |a| + |b|];
  }

  /** What there was has been read when the file turns out to be too short. */
  function AfterFailure(size: nat, pos: nat): (p: nat)
    ensures p >= size && p >= pos && (p == size || p == pos)
  {
    if pos < size then size else pos
  }

  class File {
    var data: Bytes
    var pos: nat

    constructor (data: Bytes)
      ensures this.data == data && pos == 0
    {
      this.data, this.pos := data, 0;
    }

    method SetPosition(p: nat)
      modifies this`pos
      ensures pos == p
    {
      pos := p;
    }

    method WriteBytes(bs: Bytes)
      modifies this
      ensures data == Put(old(data), old(pos), bs) && pos == old(pos) + |bs|
    {
      if bs == [] {
        return;
      }
      if pos > |data| {
        data := data + Zeros(pos - |data|);
      }
      data := data[..pos] + bs + (if pos + |bs| < |data| then data[pos + |bs|..] else []);
      pos := pos + |bs|;
    }

    /** An error if the file ends first, which is then where the file stands. */
    method ReadBytes(n: nat) returns (r: Option<Bytes>)
      modifies this`pos
      ensures n == 0 ==> r == Some([])
      ensures n > 0 ==> r == if old(pos) + n <= |data| then Some(data[old(pos)..old(pos) + n]) else None
      ensures pos == if r.Some? then old(pos) + n else AfterFailure(|data|, old(pos))
    {
      if n == 0 {
        return Some([]);
      }
      if pos + n > |data| {
        pos := AfterFailure(|data|, pos);
        return None;
      }
      r := Some(data[pos..pos + n]);
      pos := pos + n;
    }

    method WriteUInt32(n: nat)
      modifies this
      ensures data == Put(old(data), old(pos), U32(n)) && pos == old(pos) + 4
    {
      WriteBytes(U32(n));
    }

    method WriteUInt64(n: nat)
      modifies this
      ensures data == Put(old(data), old(pos), U64(n)) && pos == old(pos) + 8
    {
      WriteBytes(U64(n));
    }

    method ReadUInt32() returns (r: Option<nat>)
      modifies this`pos
      ensures r == if old(pos) + 4 <= |data| then Some(Number(data[old(pos)..old(pos) + 4])) else None
      ensures pos == if r.Some? then old(pos) + 4 else AfterFailure(|data|, old(pos))
    {
      var bs := ReadBytes(4);
      r := if bs == None then None else Some(Number(bs.value));
    }

    method ReadUInt64() returns (r: Option<nat>)
      modifies this`pos
      ensures r == if old(pos) + 8 <= |data| then Some(Number(data[old(pos)..old(pos) + 8])) else None
      ensures pos == if r.Some? then old(pos) + 8 else AfterFailure(|data|, old(pos))
    {
      var bs := ReadBytes(8);
      r := if bs == None then None else Some(Number(bs.value));
    }
  }

  /** What a run of writes that began at `p0` has done so far. */
  ghost predicate Wrote(d: Bytes, pos: nat, d0: Bytes, p0: nat, written: Bytes) {
    d == Put(d0, p0, written) && pos == p0 + |written|
  }

  /** Writing over part of what a run of writes has done. */
  lemma WrotePatch(d: Bytes, pos: nat, d0: Bytes, p0: nat, a: Bytes, old_: Bytes, new_: Bytes, b: Bytes)
    requires Wrote(d, pos, d0, p0, a + old_ + b) && |old_| == |new_|
    ensures Wrote(Put(d, p0 + |a|, new_), pos, d0, p0, a + new_ + b)
  {
    PutPatch(d0, p0, a, old_, new_, b);
  }

  method WriteMore(f: File, more: Bytes, ghost d0: Bytes, ghost p0: nat, ghost written: Bytes)
    requires Wrote(f.data, f.pos, d0, p0, written)
    modifies f
    ensures Wrote(f.data, f.pos, d0, p0, written + more)
  {
    PutAppend(d0, p0, written, more);
    f.WriteBytes(more);
  }
}
