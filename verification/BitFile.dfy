/** Reading and writing single bits (`ReadBits`, `WriteBits`, `PadWriteBits`
    and `FlushWriteBits` in mp4v2/src/mp4file_io.cpp). */
module BitFile {
  import opened Wrappers
  import opened Numbers
  import opened ByteFile

  function Pow2(k: nat): (p: nat)
    ensures p > 0
  {
    if k == 0 then 1 else 2 * Pow2(k - 1)
  }

  /** The last `n` binary digits of `v`, most significant first. */
  function BitsOf(v: nat, n: nat): (bs: seq<bool>)
    ensures |bs| == n
  {
    if n == 0 then [] else BitsOf(v / 2, n - 1) + [v % 2 == 1]
  }

  function ValueOf(bs: seq<bool>): nat {
    if bs == [] then 0 else 2 * ValueOf(bs[..|bs| - 1]) + if bs[|bs| - 1] then 1 else 0
  }

  function Shift(v: nat, k: nat): nat {
    QuotientNatural(v, Pow2(k));
    v / Pow2(k)
  }

  /** The bit that shifting right by `k` brings to the last place. */
  function Bit(v: nat, k: nat): bool {
    Shift(v, k) % 2 == 1
  }

  lemma HalfOfShift(v: nat, k: nat)
    ensures Shift(v, k) / 2 == Shift(v, k + 1) && Shift(v / 2, k) == Shift(v, k + 1)
  {
    var p, q, r := Pow2(k), v / Pow2(k), v % Pow2(k);
    assert v == p * q + r;
    Associate(p, 2, q / 2);
    Distribute(p, 2 * (q / 2), q % 2);
    MulStrict(p, q % 2, 1);
    NonNegative(p, q % 2);
    DivModUnique(v, 2 * p, q / 2, p * (q % 2) + r);
    var h := v / 2;
    Associate(2, p, h / p);
    assert h == p * (h / p) + h % p;
    DivModUnique(v, 2 * p, h / p, 2 * (h % p) + v % 2);
  }

  /** What is stored in `n` bits is the value modulo 2^n. */
  lemma {:induction false} ValueOfBits(v: nat, n: nat)
    ensures ValueOf(BitsOf(v, n)) == v % Pow2(n)
  {
    if n > 0 {
      ValueOfBits(v / 2, n - 1);
      LastBit(BitsOf(v / 2, n - 1), v % 2 == 1);
      HalfModulo(v, Pow2(n - 1));
    }
  }

  lemma LastBit(front: seq<bool>, last: bool)
    ensures ValueOf(front + [last]) == 2 * ValueOf(front) + if last then 1 else 0
  {
    assert (front + [last])[..|front|] == front;
  }

  lemma HalfModulo(v: nat, p: nat)
    requires p > 0
    ensures v % (2 * p) == 2 * (v / 2 % p) + v % 2
  {
    var h := v / 2;
    var q, r := h / p, h % p;
    assert h == p * q + r;
    Associate(2, p, q);
    DivModUnique(v, 2 * p, q, 2 * r + v % 2);
  }

  /** The first of the last `n` digits. */
  lemma {:induction false} FirstBit(v: nat, n: nat)
    requires n > 0
    ensures BitsOf(v, n) == [Bit(v, n - 1)] + BitsOf(v, n - 1)
  {
    if n > 1 {
      FirstBit(v / 2, n - 1);
      HalfOfShift(v, n - 2);
      assert [Bit(v, n - 1)] + BitsOf(v / 2, n - 2) + [v % 2 == 1] == [Bit(v, n - 1)] + (BitsOf(v / 2, n - 2) + [v % 2 == 1]);
    } else {
      assert BitsOf(v, 1) == BitsOf(v / 2, 0) + [v % 2 == 1];
    }
  }

  /** The highest of the last `n` digits comes first. */
  lemma {:induction false} BitAt(v: nat, n: nat, i: nat)
    requires i < n
    ensures BitsOf(v, n)[i] <==> v / Pow2(n - 1 - i) % 2 == 1
  {
    FirstBit(v, n);
    if i > 0 { BitAt(v, n - 1, i - 1); }
  }

  /** The first bit of a byte is worth 128. */
  lemma ByteBits(b: byte)
    ensures BitsOf(b, 8) == [b / 128 % 2 == 1, b / 64 % 2 == 1, b / 32 % 2 == 1, b / 16 % 2 == 1,
                             b / 8 % 2 == 1, b / 4 % 2 == 1, b / 2 % 2 == 1, b % 2 == 1]
  {
    Eight();
    assert Pow2(2) == 4 && Pow2(3) == 8 && Pow2(5) == 32 && Pow2(6) == 64 && Pow2(7) == 128;
    BitAt(b, 8, 0);
    BitAt(b, 8, 1);
    BitAt(b, 8, 2);
    BitAt(b, 8, 3);
    BitAt(b, 8, 4);
    BitAt(b, 8, 5);
    BitAt(b, 8, 6);
    BitAt(b, 8, 7);
  }

  /** The bits of a string of bytes. */
  function AllBits(d: Bytes): (bs: seq<bool>)
    ensures |bs| == 8 * |d|
  {
    if d == [] then [] else AllBits(d[..|d| - 1]) + BitsOf(d[|d| - 1], 8)
  }

  lemma AllBitsSnoc(d: Bytes, b: byte)
    ensures AllBits(d + [b]) == AllBits(d) + BitsOf(b, 8)
  {
    assert (d + [b])[..|d|] == d;
  }

  lemma {:induction false} AllBitsCons(d: Bytes)
    requires d != []
    ensures AllBits(d) == BitsOf(d[0], 8) + AllBits(d[1..])
  {
    var m := |d| - 1;
    if m == 0 {
      assert d[..0] == [] && d[1..] == [];
    } else {
      AllBitsCons(d[..m]);
      assert d[..m][1..] == d[1..][..m - 1];
      var first, last := BitsOf(d[0], 8), BitsOf(d[m], 8);
      Concat(first, AllBits(d[1..][..m - 1]), last);
    }
  }

  // ---- Fields ----

  datatype Field = Field(value: nat, width: nat)

  /** The bits of fields written one after the other. */
  function FieldBits(fields: seq<Field>): seq<bool> {
    if fields == [] then []
    else FieldBits(fields[..|fields| - 1]) + BitsOf(fields[|fields| - 1].value, fields[|fields| - 1].width)
  }

  lemma {:induction false} FieldBitsCons(fields: seq<Field>)
    requires fields != []
    ensures FieldBits(fields) == BitsOf(fields[0].value, fields[0].width) + FieldBits(fields[1..])
  {
    var m := |fields| - 1;
    if m == 0 {
      assert fields[..0] == [] && fields[1..] == [];
    } else {
      FieldBitsCons(fields[..m]);
      assert fields[..m][1..] == fields[1..][..m - 1];
      var first, last := BitsOf(fields[0].value, fields[0].width), BitsOf(fields[m].value, fields[m].width);
      Concat(first, FieldBits(fields[1..][..m - 1]), last);
    }
  }

  /** The values that reading fields of these widths from `bits` gives. */
  function ReadFields(bits: seq<bool>, widths: seq<nat>): (vs: seq<nat>)
    decreases |widths|
  {
    if widths == [] || widths[0] > |bits| then []
    else [ValueOf(bits[..widths[0]])] + ReadFields(bits[widths[0]..], widths[1..])
  }

  function WidthsOf(fields: seq<Field>): (ws: seq<nat>)
    ensures |ws| == |fields| && forall i :: 0 <= i < |ws| ==> ws[i] == fields[i].width
  {
    seq(|fields|, i requires 0 <= i < |fields| => fields[i].width)
  }

  function ValuesOf(fields: seq<Field>): (vs: seq<nat>)
    ensures |vs| == |fields| && forall i :: 0 <= i < |vs| ==> vs[i] == fields[i].value % Pow2(fields[i].width)
  {
    seq(|fields|, i requires 0 <= i < |fields| => fields[i].value % Pow2(fields[i].width))
  }

  /** Any list of fields reads back, each modulo its width, whatever padding
      follows. */
  lemma {:induction false} FieldsReadBack(fields: seq<Field>, rest: seq<bool>)
    ensures ReadFields(FieldBits(fields) + rest, WidthsOf(fields)) == ValuesOf(fields)
    decreases |fields|
  {
    if fields != [] {
      var w, tail := fields[0].width, FieldBits(fields[1..]) + rest;
      FieldBitsCons(fields);
      FieldsReadBack(fields[1..], rest);
      ValueOfBits(fields[0].value, w);
      NextField(BitsOf(fields[0].value, w), FieldBits(fields[1..]), rest);
      FirstField(fields);
      ReadNext(FieldBits(fields) + rest, WidthsOf(fields), tail);
    }
  }

  lemma FirstField(fields: seq<Field>)
    requires fields != []
    ensures WidthsOf(fields) != [] && WidthsOf(fields)[0] == fields[0].width && WidthsOf(fields)[1..] == WidthsOf(fields[1..])
    ensures ValuesOf(fields) == [fields[0].value % Pow2(fields[0].width)] + ValuesOf(fields[1..])
  {}

  lemma ReadNext(bits: seq<bool>, widths: seq<nat>, tail: seq<bool>)
    requires widths != [] && widths[0] <= |bits| && bits[widths[0]..] == tail
    ensures ReadFields(bits, widths) == [ValueOf(bits[..widths[0]])] + ReadFields(tail, widths[1..])
  {}

  lemma Concat(a: seq<bool>, b: seq<bool>, c: seq<bool>)
    ensures a + b + c == a + (b + c)
  {}

  lemma NextField(a: seq<bool>, b: seq<bool>, c: seq<bool>)
    ensures (a + b + c)[..|a|] == a && (a + b + c)[|a|..] == b + c
  {}

  lemma {:induction false} AllBitsConcat(a: Bytes, b: Bytes)
    ensures AllBits(a + b) == AllBits(a) + AllBits(b)
  {
    if b == [] {
      assert a + b == a;
    } else {
      var m := |b| - 1;
      assert (a + b)[..|a| + m] == a + b[..m];
      AllBitsConcat(a, b[..m]);
      Concat(AllBits(a), AllBits(b[..m]), BitsOf(b[m], 8));
    }
  }

  /** Fields that were appended to a file, and padded, read back from where
      they begin. */
  lemma FileFieldsReadBack(d0: Bytes, d: Bytes, fields: seq<Field>, pad: seq<bool>)
    requires d0 <= d && AllBits(d) == AllBits(d0) + FieldBits(fields) + pad
    ensures ReadFields(AllBits(d[|d0|..]), WidthsOf(fields)) == ValuesOf(fields)
  {
    AllBitsConcat(d0, d[|d0|..]);
    assert d == d0 + d[|d0|..];
    NextField(AllBits(d0), FieldBits(fields), pad);
    assert AllBits(d)[8 * |d0|..] == AllBits(d[|d0|..]);
    FieldsReadBack(fields, pad);
  }

  // ---- The bit buffers ----

  lemma {:induction false} PowSplit(a: nat, b: nat)
    ensures Pow2(a) * Pow2(b) == Pow2(a + b)
  {
    if a > 0 {
      PowSplit(a - 1, b);
      Associate(2, Pow2(a - 1), Pow2(b));
    }
  }

  lemma Eight()
    ensures Pow2(8) == 256
  {
    assert Pow2(4) == 16 && Pow2(8) == 16 * Pow2(4);
  }

  /** `n` bits wait in the buffer from its most significant place on; the
      places behind them are clear. */
  predicate Clear(buf: nat, n: nat)
    requires n <= 8
  {
    buf < 256 && buf == Pow2(8 - n) * Shift(buf, 8 - n)
  }

  function Waiting(buf: nat, n: nat): (bs: seq<bool>)
    requires n <= 8
    ensures |bs| == n
  {
    BitsOf(Shift(buf, 8 - n), n)
  }

  function Set(buf: nat, k: nat, b: bool): nat {
    if b && !Bit(buf, k) then buf + Pow2(k) else buf
  }

  lemma PlaceIsClear(buf: nat, n: nat)
    requires n < 8 && Clear(buf, n)
    ensures buf == Pow2(7 - n) * (2 * Shift(buf, 8 - n)) && Shift(buf, 8 - n) < Pow2(n)
    ensures !Bit(buf, 7 - n)
  {
    var p, q, c := Pow2(7 - n), Pow2(n), Shift(buf, 8 - n);
    Eight();
    PowSplit(8 - n, n);
    MulStrict(2 * p, q, c);
    Associate(2, p, c);
    MultipleDivides(p, 2 * c);
  }

  lemma SetValue(buf: nat, n: nat, b: bool)
    requires n < 8 && Clear(buf, n)
    ensures Set(buf, 7 - n, b) == Pow2(7 - n) * (2 * Shift(buf, 8 - n) + if b then 1 else 0)
  {
    PlaceIsClear(buf, n);
    Distribute(Pow2(7 - n), 2 * Shift(buf, 8 - n), if b then 1 else 0);
  }

  lemma ClearMultiple(n: nat, d: nat)
    requires n < 8 && d < 2 * Pow2(n)
    ensures Clear(Pow2(7 - n) * d, n + 1) && Shift(Pow2(7 - n) * d, 7 - n) == d
  {
    var p := Pow2(7 - n);
    MultipleDivides(p, d);
    Eight();
    PowSplit(7 - n, n + 1);
    MulStrict(p, d, Pow2(n + 1));
  }

  /** Setting the next place or not appends one bit to those that wait. */
  lemma SetNext(buf: nat, n: nat, b: bool)
    requires n < 8 && Clear(buf, n)
    ensures Clear(Set(buf, 7 - n, b), n + 1) && Waiting(Set(buf, 7 - n, b), n + 1) == Waiting(buf, n) + [b]
  {
    var d := 2 * Shift(buf, 8 - n) + if b then 1 else 0;
    PlaceIsClear(buf, n);
    SetValue(buf, n, b);
    ClearMultiple(n, d);
    NextDigit(d, n, Shift(buf, 8 - n), b);
  }

  lemma NextDigit(d: nat, n: nat, c: nat, b: bool)
    requires d == 2 * c + if b then 1 else 0
    ensures BitsOf(d, n + 1) == BitsOf(c, n) + [b]
  {}

  lemma WaitingFull(buf: nat)
    requires buf < 256
    ensures Waiting(buf, 8) == BitsOf(buf, 8) && Clear(0, 0) && Waiting(0, 0) == []
  {
    assert Pow2(0) == 1;
  }

  /** The bits of a value written so far, when `i` are left. */
  function Prefix(v: nat, n: nat, i: nat): (bs: seq<bool>)
    requires i <= n
  {
    BitsOf(Shift(v, i), n - i)
  }

  lemma PrefixNext(v: nat, n: nat, i: nat)
    requires 0 < i <= n
    ensures Prefix(v, n, i - 1) == Prefix(v, n, i) + [Bit(v, i - 1)]
    ensures Prefix(v, n, n) == []
  {
    HalfOfShift(v, i - 1);
  }

  lemma PrefixAll(v: nat, n: nat)
    ensures Prefix(v, n, n) == [] && Prefix(v, n, 0) == BitsOf(v, n)
  {
    assert Pow2(0) == 1;
  }

  /** What fills a byte up in which `n` bits are taken. */
  function Padding(pad: bool, n: nat): seq<bool>
    requires n < 8
  {
    if n == 0 then [] else BitsOf(if pad then 255 else 0, 8 - n)
  }

  /** It is as many bits of one kind as are missing. */
  lemma PaddingIs(pad: bool, n: nat)
    requires n < 8
    ensures |Padding(pad, n)| == (if n == 0 then 0 else 8 - n) && forall i :: 0 <= i < |Padding(pad, n)| ==> Padding(pad, n)[i] == pad
  {
    assert Pow2(2) == 4 && Pow2(3) == 8 && Pow2(5) == 32 && Pow2(6) == 64;
    forall i | 0 <= i < |Padding(pad, n)|
      ensures Padding(pad, n)[i] == pad
    {
      BitAt(if pad then 255 else 0, 8 - n, i);
    }
  }

  class BitIO {
    const f: File
    var numReadBits: nat
    var bufReadBits: byte
    var numWriteBits: nat
    var bufWriteBits: byte

    constructor (f: File)
      ensures this.f == f && numReadBits == numWriteBits == 0 && bufReadBits == bufWriteBits == 0
    {
      this.f := f;
      numReadBits, bufReadBits, numWriteBits, bufWriteBits := 0, 0, 0, 0;
    }

    ghost predicate Writing()
      reads this`numWriteBits, this`bufWriteBits, f
    {
      f.pos == |f.data| && numWriteBits < 8 && Clear(bufWriteBits, numWriteBits)
    }

    /** All bits written: those in the file, then those still in the buffer. */
    ghost function Written(): seq<bool>
      requires numWriteBits <= 8
      reads this`numWriteBits, this`bufWriteBits, f
    {
      AllBits(f.data) + Waiting(bufWriteBits, numWriteBits)
    }

    /** The bits that reading would give: what is left in the buffer, then the
        rest of the file. */
    ghost function Ahead(): seq<bool>
      reads this`numReadBits, this`bufReadBits, f
    {
      BitsOf(bufReadBits, numReadBits) + if f.pos <= |f.data| then AllBits(f.data[f.pos..]) else []
    }

    /** Puts one bit into the next place of the buffer; a full buffer goes to
        the file. */
    method PutBit(b: bool)
      requires Writing()
      modifies this`numWriteBits, this`bufWriteBits, f
      ensures Writing() && Written() == old(Written()) + [b] && old(f.data) <= f.data
    {
      SetNext(bufWriteBits, numWriteBits, b);
      Concat(AllBits(f.data), Waiting(bufWriteBits, numWriteBits), [b]);
      numWriteBits := numWriteBits + 1;
      bufWriteBits := Set(bufWriteBits, 8 - numWriteBits, b);
      if numWriteBits == 8 {
        var ok := FlushWriteBits();
      }
    }

    /** Writes the buffer to the file. Bytes cannot be written while one is
        begun, so a buffer that is neither full nor empty is refused. */
    method FlushWriteBits() returns (ok: bool)
      requires f.pos == |f.data| && numWriteBits <= 8 && (numWriteBits < 8 ==> Writing())
      modifies this`numWriteBits, this`bufWriteBits, f
      ensures ok <==> old(numWriteBits) == 0 || old(numWriteBits) == 8
      ensures if ok then Writing() && numWriteBits == 0 else numWriteBits == old(numWriteBits) && f.data == old(f.data)
      ensures Written() == old(Written()) && old(f.data) <= f.data
    {
      if numWriteBits == 0 {
        return true;
      }
      if numWriteBits < 8 {
        return false;
      }
      FlushFull();
      return true;
    }

    method FlushFull()
      requires f.pos == |f.data| && numWriteBits == 8
      modifies this`numWriteBits, this`bufWriteBits, f
      ensures Writing() && numWriteBits == 0 && Written() == old(Written()) && old(f.data) <= f.data
    {
      AllBitsSnoc(f.data, bufWriteBits);
      WaitingFull(bufWriteBits);
      ghost var d := f.data;
      f.WriteBytes([bufWriteBits]);
      assert f.data == d + [bufWriteBits];
      numWriteBits, bufWriteBits := 0, 0;
      assert AllBits(f.data) + [] == AllBits(f.data);
    }

    /** Writes the last `numBits` bits of a value. */
    method WriteBits(bits: nat, numBits: nat)
      requires Writing() && numBits <= 64
      modifies this`numWriteBits, this`bufWriteBits, f
      ensures Writing() && Written() == old(Written()) + BitsOf(bits, numBits) && old(f.data) <= f.data
    {
      var i: int := numBits;
      PrefixAll(bits, numBits);
      assert Written() == Written() + [];
      while i > 0
        invariant 0 <= i <= numBits && Writing() && old(f.data) <= f.data
        invariant Written() == old(Written()) + Prefix(bits, numBits, i)
      {
        PrefixNext(bits, numBits, i);
        Concat(old(Written()), Prefix(bits, numBits, i), [Bit(bits, i - 1)]);
        PutBit(Bit(bits, i - 1));
        i := i - 1;
      }
    }

    /** Fills the last byte up. */
    method PadWriteBits(pad: bool)
      requires Writing()
      modifies this`numWriteBits, this`bufWriteBits, f
      ensures Writing() && numWriteBits == 0 && old(f.data) <= f.data
      ensures AllBits(f.data) == old(Written()) + Padding(pad, old(numWriteBits))
      ensures |AllBits(f.data)| < |old(Written())| + 8
      ensures forall i :: |old(Written())| <= i < |AllBits(f.data)| ==> AllBits(f.data)[i] == pad
    {
      PaddingIs(pad, numWriteBits);
      if numWriteBits > 0 {
        ghost var n := |f.data|;
        WriteBits(if pad then 255 else 0, 8 - numWriteBits);
        assert |Written()| == 8 * n + 8;
      }
      assert AllBits(f.data) + [] == AllBits(f.data);
    }

    /** Fetches the next byte of the file into the buffer. */
    method Refill() returns (filled: bool)
      requires numReadBits == 0
      modifies this`numReadBits, this`bufReadBits, f`pos
      ensures filled <==> old(Ahead()) != []
      ensures filled ==> numReadBits == 8 && Ahead() == old(Ahead())
    {
      assert BitsOf(bufReadBits, 0) == [];
      var bs := f.ReadBytes(1);
      if bs == None {
        return false;
      }
      bufReadBits := bs.value[0];
      numReadBits := 8;
      AllBitsCons(f.data[old(f.pos)..]);
      return true;
    }

    /** Takes the next bit, from the next byte of the file if the buffer is
        used up. */
    method GetBit() returns (b: Option<bool>)
      modifies this`numReadBits, this`bufReadBits, f`pos
      ensures b == None <==> old(Ahead()) == []
      ensures b.Some? ==> old(Ahead()) == [b.value] + Ahead()
    {
      if numReadBits == 0 {
        var filled := Refill();
        if !filled {
          return None;
        }
      }
      FirstBit(bufReadBits, numReadBits);
      numReadBits := numReadBits - 1;
      b := Some(Bit(bufReadBits, numReadBits));
    }

    /** Reads the next `numBits` bits as a value, if there are so many. */
    method ReadBits(numBits: nat) returns (r: Option<nat>)
      requires 0 < numBits <= 64
      modifies this`numReadBits, this`bufReadBits, f`pos
      ensures r.Some? <==> numBits <= |old(Ahead())|
      ensures r.Some? ==> r.value == ValueOf(old(Ahead())[..numBits]) && Ahead() == old(Ahead())[numBits..]
    {
      ghost var all := Ahead();
      var bits := 0;
      for i := 0 to numBits
        invariant i <= |all| && Ahead() == all[i..] && bits == ValueOf(all[..i])
      {
        var b := GetBit();
        if b == None {
          return None;
        }
        ValueNext(all, i);
        bits := 2 * bits + if b.value then 1 else 0;
      }
      r := Some(bits);
    }

    /** Drops the bits left in the buffer. */
    method FlushReadBits()
      modifies this`numReadBits
      ensures Ahead() == old(Ahead())[old(numReadBits)..]
    {
      assert old(Ahead())[numReadBits..] == if f.pos <= |f.data| then AllBits(f.data[f.pos..]) else [];
      numReadBits := 0;
      assert BitsOf(bufReadBits, 0) == [];
    }
  }

  lemma ValueNext(bs: seq<bool>, i: nat)
    requires i < |bs|
    ensures ValueOf(bs[..i + 1]) == 2 * ValueOf(bs[..i]) + if bs[i] then 1 else 0
  {
    assert bs[..i + 1][..i] == bs[..i];
  }
}
