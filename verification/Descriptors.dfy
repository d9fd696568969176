/** Descriptors (section 8.3.3 of ISO/IEC 14496-1): a tag, a length of four
    bytes that is patched in afterwards, and properties, which may be
    descriptors themselves (mp4v2/src/mp4descriptor.cpp). */
module Descriptors {
  import opened Wrappers
  import opened ByteFile
  import opened MpegLengths

  datatype Descriptor = Descriptor(tag: byte, props: seq<Property>)

  datatype Property = Plain(bytes: Bytes) | Nested(descriptors: seq<Descriptor>)

  /** The length of a body as the 32-bit number it is written from. */
  function Length(n: nat): (l: nat)
    ensures l <= MAX32 && (l == n <==> n <= MAX32)
  {
    n % (MAX32 + 1)
  }

  /** A descriptor without properties is not written at all. */
  function Encode(d: Descriptor): (bs: Bytes)
    decreases d, 0
  {
    if d.props == [] then [] else [d.tag] + LengthBytes(Length(|Body(d.props)|), 4) + Body(d.props)
  }

  function Body(props: seq<Property>): (bs: Bytes)
    decreases props
  {
    if props == [] then [] else Body(props[..|props| - 1]) + EncodeProperty(props[|props| - 1])
  }

  function EncodeProperty(p: Property): (bs: Bytes)
    decreases p, 0
  {
    match p
    case Plain(bytes) => bytes
    case Nested(ds) => EncodeAll(ds)
  }

  function EncodeAll(ds: seq<Descriptor>): (bs: Bytes)
    decreases ds
  {
    if ds == [] then [] else EncodeAll(ds[..|ds| - 1]) + Encode(ds[|ds| - 1])
  }

  /** A descriptor of two bytes, byte for byte: tag, length, body. */
  lemma SmallDescriptor()
    ensures Encode(Descriptor(3, [Plain([7, 9])])) == [3, 0x80, 0x80, 0x80, 2, 7, 9]
  {
    var props := [Plain([7, 9])];
    assert props[..0] == [];
    assert Body(props) == [] + [7, 9];
    LengthByteAt(2, 4, 0);
    LengthByteAt(2, 4, 1);
    LengthByteAt(2, 4, 2);
    LengthByteAt(2, 4, 3);
    Powers();
    assert LengthBytes(2, 4) == [0x80, 0x80, 0x80, 2];
    assert [3] + [0x80, 0x80, 0x80, 2] + [7, 9] == [3, 0x80, 0x80, 0x80, 2, 7, 9];
  }

  /** No length, cut down to 32 bits, needs more than 28. */
  predicate Fits(d: Descriptor)
    decreases d, 0
  {
    d.props != [] ==> Length(|Body(d.props)|) <= MAX_LENGTH && PropsFit(d.props)
  }

  predicate PropsFit(props: seq<Property>)
    decreases props
  {
    props == [] || (PropsFit(props[..|props| - 1]) && PropFits(props[|props| - 1]))
  }

  predicate PropFits(p: Property)
    decreases p, 0
  {
    p.Nested? ==> AllFit(p.descriptors)
  }

  predicate AllFit(ds: seq<Descriptor>)
    decreases ds
  {
    ds == [] || (AllFit(ds[..|ds| - 1]) && Fits(ds[|ds| - 1]))
  }

  lemma BodyNext(props: seq<Property>, i: nat)
    requires i < |props|
    ensures Body(props[..i + 1]) == Body(props[..i]) + EncodeProperty(props[i])
    ensures PropsFit(props[..i + 1]) <==> PropsFit(props[..i]) && PropFits(props[i])
    ensures props[..|props|] == props
  {
    assert props[..i + 1][..i] == props[..i];
  }

  lemma AllNext(ds: seq<Descriptor>, i: nat)
    requires i < |ds|
    ensures EncodeAll(ds[..i + 1]) == EncodeAll(ds[..i]) + Encode(ds[i])
    ensures AllFit(ds[..i + 1]) <==> AllFit(ds[..i]) && Fits(ds[i])
    ensures ds[..|ds|] == ds
  {
    assert ds[..i + 1][..i] == ds[..i];
  }

  lemma {:induction false} PropsFitPrefix(props: seq<Property>, i: nat)
    requires i <= |props| && PropsFit(props)
    ensures PropsFit(props[..i])
    decreases |props|
  {
    if i == |props| {
      assert props[..i] == props;
    } else {
      PropsFitPrefix(props[..|props| - 1], i);
      assert props[..|props| - 1][..i] == props[..i];
    }
  }

  lemma {:induction false} AllFitPrefix(ds: seq<Descriptor>, i: nat)
    requires i <= |ds| && AllFit(ds)
    ensures AllFit(ds[..i])
    decreases |ds|
  {
    if i == |ds| {
      assert ds[..i] == ds;
    } else {
      AllFitPrefix(ds[..|ds| - 1], i);
      assert ds[..|ds| - 1][..i] == ds[..i];
    }
  }

  // ---- Writing ----

  /** Writes a descriptor where the file stands. */
  method Write(f: File, d: Descriptor) returns (ok: bool)
    modifies f
    ensures ok <==> Fits(d)
    ensures ok ==> Wrote(f.data, f.pos, old(f.data), old(f.pos), Encode(d))
    decreases d, 0
  {
    if d.props == [] {
      return true;
    }
    ghost var d0, p0, front := f.data, f.pos, [d.tag];
    PutAppend(d0, p0, [], front);
    f.WriteBytes([d.tag]);
    var lengthPos := f.pos;
    ok := WritePlaceholder(f, d0, p0, front);
    var startPos := f.pos;
    ok := WriteProperties(f, d.props, d0, p0, front + LengthBytes(0, 4));
    if !ok {
      return;
    }
    ok := PatchLength(f, lengthPos, startPos, d0, p0, front, Body(d.props));
  }

  method WritePlaceholder(f: File, ghost d0: Bytes, ghost p0: nat, ghost front: Bytes) returns (ok: bool)
    requires Wrote(f.data, f.pos, d0, p0, front)
    modifies f
    ensures ok && Wrote(f.data, f.pos, d0, p0, front + LengthBytes(0, 4))
  {
    PutAppend(d0, p0, front, LengthBytes(0, 4));
    ok := WriteMpegLength(f, 0, false);
  }

  /** Goes back to write the length of what was written since. */
  method PatchLength(f: File, lengthPos: nat, startPos: nat, ghost d0: Bytes, ghost p0: nat, ghost front: Bytes, ghost body: Bytes)
    returns (ok: bool)
    requires Wrote(f.data, f.pos, d0, p0, front + LengthBytes(0, 4) + body)
    requires lengthPos == p0 + |front| && startPos == lengthPos + 4
    modifies f
    ensures ok <==> Length(|body|) <= MAX_LENGTH
    ensures ok ==> Wrote(f.data, f.pos, d0, p0, front + LengthBytes(Length(|body|), 4) + body)
  {
    var n := f.pos - startPos;
    assert n == |body|;
    ok := PatchWith(f, lengthPos, Length(n), d0, p0, front, LengthBytes(0, 4), body);
  }

  method PatchWith(f: File, lengthPos: nat, length: nat, ghost d0: Bytes, ghost p0: nat, ghost front: Bytes, ghost old_: Bytes, ghost body: Bytes)
    returns (ok: bool)
    requires Wrote(f.data, f.pos, d0, p0, front + old_ + body) && |old_| == 4 && lengthPos == p0 + |front|
    modifies f
    ensures ok <==> length <= MAX_LENGTH
    ensures ok ==> Wrote(f.data, f.pos, d0, p0, front + LengthBytes(length, 4) + body)
  {
    WrotePatch(f.data, f.pos, d0, p0, front, old_, LengthBytes(length, 4), body);
    var endPos := f.pos;
    ok := WriteLengthAt(f, lengthPos, length);
    f.SetPosition(endPos);
  }

  method WriteLengthAt(f: File, lengthPos: nat, length: nat) returns (ok: bool)
    modifies f
    ensures ok <==> length <= MAX_LENGTH
    ensures ok ==> f.data == Put(old(f.data), lengthPos, LengthBytes(length, 4))
  {
    f.SetPosition(lengthPos);
    ok := WriteMpegLength(f, length, false);
  }

  method WriteProperties(f: File, props: seq<Property>, ghost d0: Bytes, ghost p0: nat, ghost front: Bytes) returns (ok: bool)
    requires Wrote(f.data, f.pos, d0, p0, front)
    modifies f
    ensures ok <==> PropsFit(props)
    ensures ok ==> Wrote(f.data, f.pos, d0, p0, front + Body(props))
    decreases props, 1
  {
    ghost var written := front;
    for i := 0 to |props|
      invariant PropsFit(props[..i]) && written == front + Body(props[..i])
      invariant Wrote(f.data, f.pos, d0, p0, written)
    {
      BodyNext(props, i);
      Concatenate(front, Body(props[..i]), EncodeProperty(props[i]));
      ok := WriteProperty(f, props[i], d0, p0, written);
      if !ok {
        if PropsFit(props) { PropsFitPrefix(props, i + 1); }
        return;
      }
      written := written + EncodeProperty(props[i]);
    }
    assert props[..|props|] == props;
    return true;
  }

  method WriteProperty(f: File, p: Property, ghost d0: Bytes, ghost p0: nat, ghost front: Bytes) returns (ok: bool)
    requires Wrote(f.data, f.pos, d0, p0, front)
    modifies f
    ensures ok <==> PropFits(p)
    ensures ok ==> Wrote(f.data, f.pos, d0, p0, front + EncodeProperty(p))
    decreases p, 1
  {
    match p {
      case Plain(bytes) =>
        WriteMore(f, bytes, d0, p0, front);
        ok := true;
      case Nested(ds) =>
        ok := WriteDescriptors(f, ds, d0, p0, front);
    }
  }

  method WriteDescriptors(f: File, ds: seq<Descriptor>, ghost d0: Bytes, ghost p0: nat, ghost front: Bytes) returns (ok: bool)
    requires Wrote(f.data, f.pos, d0, p0, front)
    modifies f
    ensures ok <==> AllFit(ds)
    ensures ok ==> Wrote(f.data, f.pos, d0, p0, front + EncodeAll(ds))
    decreases ds, 1
  {
    ghost var written := front;
    for i := 0 to |ds|
      invariant AllFit(ds[..i]) && written == front + EncodeAll(ds[..i])
      invariant Wrote(f.data, f.pos, d0, p0, written)
    {
      AllNext(ds, i);
      Concatenate(front, EncodeAll(ds[..i]), Encode(ds[i]));
      ok := WriteNested(f, ds[i], d0, p0, written);
      if !ok {
        if AllFit(ds) { AllFitPrefix(ds, i + 1); }
        return;
      }
      written := written + Encode(ds[i]);
    }
    assert ds[..|ds|] == ds;
    return true;
  }

  method WriteNested(f: File, d: Descriptor, ghost d0: Bytes, ghost p0: nat, ghost front: Bytes) returns (ok: bool)
    requires Wrote(f.data, f.pos, d0, p0, front)
    modifies f
    ensures ok <==> Fits(d)
    ensures ok ==> Wrote(f.data, f.pos, d0, p0, front + Encode(d))
    decreases d, 1
  {
    PutAppend(d0, p0, front, Encode(d));
    ok := Write(f, d);
  }

  // ---- Reading headers ----

  /** The tag and the length at `pos`, and where the body starts. */
  function HeaderAt(f: Bytes, pos: nat): (r: Option<(byte, nat, nat)>) {
    if pos >= |f| then None
    else
      match LengthAt(f[pos + 1..], 0, 0)
      case None => None
      case Some((length, used)) => Some((f[pos], length, pos + 1 + used))
  }

  /** Reads a tag, which must be the expected one unless that is 0, and a
      length. */
  method ReadHeader(f: File, expected: byte) returns (tag: byte, size: nat, ok: bool)
    requires f.pos <= |f.data|
    modifies f`pos
    ensures var h := HeaderAt(f.data, old(f.pos)); ok <==> h.Some? && (expected == 0 || h.value.0 == expected)
    ensures ok ==> HeaderAt(f.data, old(f.pos)) == Some((tag, size, f.pos))
  {
    var b := f.ReadBytes(1);
    if b == None {
      return 0, 0, false;
    }
    if expected != 0 && b.value[0] != expected {
      return 0, 0, false;
    }
    var length := ReadMpegLength(f);
    if length == None {
      return 0, 0, false;
    }
    return b.value[0], length.value, true;
  }

  /** The header of this descriptor, and of every one inside it, states its tag
      and exactly the size of its body, which follows it. */
  predicate Exact(d: Descriptor, f: Bytes, pos: nat)
    decreases d, 0
  {
    d.props != [] ==>
      HeaderAt(f, pos) == Some((d.tag, |Body(d.props)|, pos + 5)) && PropsExact(d.props, f, pos + 5)
  }

  predicate PropsExact(props: seq<Property>, f: Bytes, pos: nat)
    decreases props
  {
    props != [] ==>
      var m := |props| - 1;
      PropsExact(props[..m], f, pos) && PropExact(props[m], f, pos + |Body(props[..m])|)
  }

  predicate PropExact(p: Property, f: Bytes, pos: nat)
    decreases p, 0
  {
    match p
    case Plain(bytes) => At(f, pos, bytes)
    case Nested(ds) => AllExact(ds, f, pos)
  }

  predicate AllExact(ds: seq<Descriptor>, f: Bytes, pos: nat)
    decreases ds
  {
    ds != [] ==>
      var m := |ds| - 1;
      AllExact(ds[..m], f, pos) && Exact(ds[m], f, pos + |EncodeAll(ds[..m])|)
  }

  /** No body is longer than a length can say. */
  predicate Sized(d: Descriptor)
    decreases d, 0
  {
    d.props != [] ==> |Body(d.props)| <= MAX_LENGTH && PropsSized(d.props)
  }

  predicate PropsSized(props: seq<Property>)
    decreases props
  {
    props == [] || (PropsSized(props[..|props| - 1]) && PropSized(props[|props| - 1]))
  }

  predicate PropSized(p: Property)
    decreases p, 0
  {
    p.Nested? ==> AllSized(p.descriptors)
  }

  predicate AllSized(ds: seq<Descriptor>)
    decreases ds
  {
    ds == [] || (AllSized(ds[..|ds| - 1]) && Sized(ds[|ds| - 1]))
  }

  /** Every length patched in is the exact size of its body, exactly when no
      body is longer than a length can say: the cut to 32 bits lets longer ones
      through. */
  lemma WrittenIsExact(d: Descriptor, f: Bytes, pos: nat)
    requires Fits(d) && At(f, pos, Encode(d))
    ensures Exact(d, f, pos) <==> Sized(d)
    decreases d, 0
  {
    if d.props != [] {
      var body := Body(d.props);
      var length := LengthBytes(Length(|body|), 4);
      AtPart(f, pos, [d.tag] + length, body);
      AtPart(f, pos, [d.tag], length);
      HeaderRead(d.tag, Length(|body|), f, pos);
      PropsAreExact(d.props, f, pos + 5);
    }
  }

  /** Four gigabytes and five bytes are written with length 5. */
  lemma LongBodyIsCut(tag: byte) returns (d: Descriptor)
    ensures Fits(d) && !Sized(d) && d.props != [] && Length(|Body(d.props)|) == 5
  {
    var p := Plain(Zeros(MAX32 + 6));
    d := Descriptor(tag, [p]);
    assert d.props[..0] == [] && PropsFit([]);
    assert Body(d.props) == Body(d.props[..0]) + EncodeProperty(p);
  }

  lemma HeaderRead(tag: byte, size: nat, f: Bytes, pos: nat)
    requires At(f, pos, [tag]) && At(f, pos + 1, LengthBytes(size, 4)) && size <= MAX_LENGTH
    ensures HeaderAt(f, pos) == Some((tag, size, pos + 5))
  {
    Powers();
    var rest := f[pos + 5..];
    assert f[pos + 1..] == LengthBytes(size, 4) + rest;
    LengthRoundTrip(size, 4, rest);
    assert f[pos..pos + 1][0] == tag;
  }

  lemma {:induction false} PropsAreExact(props: seq<Property>, f: Bytes, pos: nat)
    requires PropsFit(props) && At(f, pos, Body(props))
    ensures PropsExact(props, f, pos) <==> PropsSized(props)
    decreases props
  {
    if props != [] {
      var m := |props| - 1;
      AtPart(f, pos, Body(props[..m]), EncodeProperty(props[m]));
      PropsAreExact(props[..m], f, pos);
      PropIsExact(props[m], f, pos + |Body(props[..m])|);
    }
  }

  lemma PropIsExact(p: Property, f: Bytes, pos: nat)
    requires PropFits(p) && At(f, pos, EncodeProperty(p))
    ensures PropExact(p, f, pos) <==> PropSized(p)
    decreases p, 0
  {
    if p.Nested? { AllAreExact(p.descriptors, f, pos); }
  }

  lemma {:induction false} AllAreExact(ds: seq<Descriptor>, f: Bytes, pos: nat)
    requires AllFit(ds) && At(f, pos, EncodeAll(ds))
    ensures AllExact(ds, f, pos) <==> AllSized(ds)
    decreases ds
  {
    if ds != [] {
      var m := |ds| - 1;
      AtPart(f, pos, EncodeAll(ds[..m]), Encode(ds[m]));
      AllAreExact(ds[..m], f, pos);
      WrittenIsExact(ds[m], f, pos + |EncodeAll(ds[..m])|);
    }
  }
}
