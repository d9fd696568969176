/** Reading back what was written gives the same tree of atoms. */
module AtomRoundTrip {
  import opened Wrappers
  import opened ByteFile
  import opened Atoms
  import opened AtomParser

  /** The tree as the reader sees it: chunk offset tables as bytes. */
  ghost function Flat(a: Atom): (b: Atom)
    decreases a, 1
  {
    if a.Box? then a.(children := FlatAll(a.children)) else Plain(a)
  }

  ghost function FlatAll(as_: seq<Atom>): (bs: seq<Atom>)
    decreases as_
  {
    if as_ == [] then [] else [Flat(as_[0])] + FlatAll(as_[1..])
  }

  ghost function Strip(n: Node): Atom
    decreases n, 1
  {
    Box(n.typ, n.ext, n.props, StripAll(n.children))
  }

  ghost function StripAll(ns: seq<Node>): seq<Atom>
    decreases ns
  {
    if ns == [] then [] else [Strip(ns[0])] + StripAll(ns[1..])
  }

  /** The properties tell their own length, whatever follows them. */
  ghost predicate SelfDelimiting(s: Schema, path: seq<Bytes>, props: Bytes) {
    forall rest {:trigger s.length(path, props + rest)} :: s.length(path, props + rest) == |props|
  }

  /** An atom of the kind its type promises, small enough for a 32-bit size. */
  ghost predicate Conforms(s: Schema, parents: seq<Bytes>, a: Atom)
    decreases a, 1
  {
    var b := Plain(a);
    var path := parents + [b.typ];
    && |Encode(a)| <= MAX32
    && |b.typ| == 4 && |b.ext| == (if b.typ == UUID then 16 else 0)
    && Suits(s, path, b.props, b.children)
    && (a.Box? ==> AllConform(s, path, a.children))
  }

  ghost predicate AllConform(s: Schema, path: seq<Bytes>, as_: seq<Atom>)
    decreases as_
  {
    as_ == [] || (Conforms(s, path, as_[0]) && AllConform(s, path, as_[1..]))
  }

  lemma {:induction false} EncodeAllCons(as_: seq<Atom>)
    requires as_ != []
    ensures EncodeAll(as_) == Encode(as_[0]) + EncodeAll(as_[1..])
  {
    var m := |as_| - 1;
    if m == 0 {
      assert EncodeAll(as_[..0]) == [] && as_[1..] == [];
    } else {
      EncodeAllCons(as_[..m]);
      assert as_[..m][1..] == as_[1..][..m - 1];
      Concatenate(Encode(as_[0]), EncodeAll(as_[1..][..m - 1]), Encode(as_[m]));
    }
  }

  /** The parts of an atom stand where the reader looks for them. */
  lemma HeadParts(d: Bytes, pos: nat, typ: Bytes, ext: Bytes, props: Bytes)
    requires At(d, pos, typ + ext + props)
    ensures At(d, pos, typ) && At(d, pos + |typ|, ext) && At(d, pos + |typ| + |ext|, props)
  {
    AtPart(d, pos, typ + ext, props);
    AtPart(d, pos, typ, ext);
  }

  lemma BodyParts(d: Bytes, pos: nat, a: Atom)
    requires At(d, pos, Body(a))
    ensures At(d, pos, Head(a)) && (a.Box? ==> At(d, pos + |Head(a)|, EncodeAll(a.children)))
  {
    if a.Box? {
      AtPart(d, pos, Head(a), EncodeAll(a.children));
    }
  }

  lemma {:induction false} Parts(d: Bytes, pos: nat, a: Atom)
    requires At(d, pos, Encode(a))
    ensures At(d, pos, U32(|Encode(a)|)) && At(d, pos + 4, Head(a))
    ensures a.Box? ==> At(d, pos + 4 + |Head(a)|, EncodeAll(a.children))
  {
    AtPart(d, pos, U32(|Encode(a)|), Body(a));
    BodyParts(d, pos + 4, a);
  }

  lemma HeaderFound(d: Bytes, pos: nat, size: nat, typ: Bytes, ext: Bytes)
    requires At(d, pos, U32(size)) && At(d, pos + 4, typ) && At(d, pos + 8, ext)
    requires |typ| == 4 && |ext| == (if typ == UUID then 16 else 0)
    requires 8 + |ext| <= size <= MAX32 && pos + size <= |d| < TWO64
    ensures HeaderAt(d, pos) == Success(Header(typ, ext, size, 8 + |ext|))
  {
    assert Number(d[pos..pos + 4]) == size;
  }

  lemma PropsRead(s: Schema, path: seq<Bytes>, d: Bytes, body: nat, end: nat, props: Bytes)
    requires At(d, body, props) && body + |props| <= end <= |d| && end - body <= MAX32
    requires match s.kind(path)
             case Unknown => end == body + |props|
             case Known(fields, _) => if fields then SelfDelimiting(s, path, props) else props == []
    ensures PropsEnd(s, path, d, body, end) == Success(body + |props|)
    ensures d[body..body + |props|] == props
  {
    var rest := d[body + |props|..];
    assert d[body..] == props + rest;
    if s.kind(path).Known? && s.kind(path).fields {
      assert s.length(path, props + rest) == |props|;
    }
  }

  /** What is read of an atom written at `pos`. */
  ghost function Located(a: Atom, pos: nat): (n: Node)
    decreases a, 1
  {
    var b := Plain(a);
    Node(pos, pos + |Encode(a)|, b.typ, b.ext, b.props, if a.Box? then LocatedAll(a.children, pos + 8 + |b.ext| + |b.props|) else [])
  }

  ghost function LocatedAll(as_: seq<Atom>, pos: nat): (ns: seq<Node>)
    decreases as_
  {
    if as_ == [] then [] else [Located(as_[0], pos)] + LocatedAll(as_[1..], pos + |Encode(as_[0])|)
  }

  /** The fields of an atom as its kind has them, and its children. */
  ghost predicate Suits(s: Schema, path: seq<Bytes>, props: Bytes, children: seq<Atom>) {
    match s.kind(path)
    case Unknown => children == []
    case Known(fields, container) =>
      && (if fields then SelfDelimiting(s, path, props) else props == [])
      && (!container ==> children == [])
  }

  /** The parts of an atom that suits its kind stand one after the other. */
  ghost predicate Spelled(s: Schema, path: seq<Bytes>, typ: Bytes, ext: Bytes, props: Bytes, children: seq<Atom>,
                          d: Bytes, pos: nat, size: nat) {
    && |typ| == 4 && |ext| == (if typ == UUID then 16 else 0)
    && Suits(s, path, props, children) && AllConform(s, path, children)
    && size == 8 + |ext| + |props| + |EncodeAll(children)| <= MAX32 && |d| < TWO64
    && At(d, pos, U32(size)) && At(d, pos + 4, typ) && At(d, pos + 8, ext) && At(d, pos + 8 + |ext|, props)
    && At(d, pos + 8 + |ext| + |props|, EncodeAll(children))
  }

  /** An atom is written as its parts, one after the other. */
  lemma {:induction false} PlainParts(a: Atom, d: Bytes, pos: nat)
    requires At(d, pos, Encode(a)) && |Plain(a).typ| == 4
    ensures var b := Plain(a);
            && |Encode(a)| == 8 + |b.ext| + |b.props| + |EncodeAll(b.children)|
            && At(d, pos, U32(|Encode(a)|)) && At(d, pos + 4, b.typ) && At(d, pos + 8, b.ext)
            && At(d, pos + 8 + |b.ext|, b.props) && At(d, pos + 8 + |b.ext| + |b.props|, EncodeAll(b.children))
  {
    var b := Plain(a);
    Parts(d, pos, a);
    HeadParts(d, pos + 4, b.typ, b.ext, b.props);
  }

  lemma SpelledChildren(s: Schema, path: seq<Bytes>, typ: Bytes, ext: Bytes, props: Bytes, children: seq<Atom>,
                                           d: Bytes, pos: nat, size: nat)
    requires Spelled(s, path, typ, ext, props, children, d, pos, size)
    ensures AllConform(s, path, children) && At(d, pos + 8 + |ext| + |props|, EncodeAll(children)) && |d| < TWO64
    ensures pos + size == pos + 8 + |ext| + |props| + |EncodeAll(children)|
    ensures (s.kind(path).Known? && s.kind(path).container) || children == []
  {}

  lemma {:induction false} SpelledRead(s: Schema, path: seq<Bytes>, typ: Bytes, ext: Bytes, props: Bytes, children: seq<Atom>,
                                       d: Bytes, pos: nat, size: nat)
    requires Spelled(s, path, typ, ext, props, children, d, pos, size) && pos + size <= |d|
    ensures ChildrenAt(s, path, d, pos + 8 + |ext| + |props|, pos + size)
         == Success(LocatedAll(children, pos + 8 + |ext| + |props|))
    decreases |EncodeAll(children)|, 5
  {
    SpelledChildren(s, path, typ, ext, props, children, d, pos, size);
    ChildrenRead(s, path, children, d, pos + 8 + |ext| + |props|, pos + size);
  }

  lemma {:induction false} BoxWith(s: Schema, path: seq<Bytes>, typ: Bytes, ext: Bytes, props: Bytes, children: seq<Atom>,
                                   d: Bytes, pos: nat, size: nat)
    requires Spelled(s, path, typ, ext, props, children, d, pos, size) && pos + size <= |d|
    ensures AtomWith(s, path, d, pos, Header(typ, ext, size, 8 + |ext|), pos + size)
         == Success(Node(pos, pos + size, typ, ext, props, LocatedAll(children, pos + 8 + |ext| + |props|)))
    decreases |EncodeAll(children)|, 6
  {
    var kids := LocatedAll(children, pos + 8 + |ext| + |props|);
    SpelledRead(s, path, typ, ext, props, children, d, pos, size);
    WithRead(s, path, typ, ext, props, children, d, pos, size, kids);
  }

  /** The reader puts an atom together from the parts it finds. */
  lemma {:induction false} BoxRead(s: Schema, parents: seq<Bytes>, typ: Bytes, ext: Bytes, props: Bytes, children: seq<Atom>,
                                   d: Bytes, pos: nat, size: nat, parentEnd: nat)
    requires Spelled(s, parents + [typ], typ, ext, props, children, d, pos, size) && pos + size <= parentEnd <= |d|
    ensures AtomAt(s, parents, d, pos, parentEnd)
         == Success(Node(pos, pos + size, typ, ext, props, LocatedAll(children, pos + 8 + |ext| + |props|)))
    decreases |EncodeAll(children)|, 7
  {
    BoxWith(s, parents + [typ], typ, ext, props, children, d, pos, size);
    HeaderStep(s, parents, d, pos, size, typ, ext, parentEnd);
  }

  lemma {:induction false} HeaderStep(s: Schema, parents: seq<Bytes>, d: Bytes, pos: nat, size: nat, typ: Bytes, ext: Bytes, parentEnd: nat)
    requires At(d, pos, U32(size)) && At(d, pos + 4, typ) && At(d, pos + 8, ext)
    requires |typ| == 4 && |ext| == (if typ == UUID then 16 else 0)
    requires 8 + |ext| <= size <= MAX32 && pos + size <= parentEnd <= |d| < TWO64
    ensures AtomAt(s, parents, d, pos, parentEnd)
         == AtomWith(s, parents + [typ], d, pos, Header(typ, ext, size, 8 + |ext|), pos + size)
  {
    HeaderFound(d, pos, size, typ, ext);
  }

  lemma {:induction false} WithRead(s: Schema, path: seq<Bytes>, typ: Bytes, ext: Bytes, props: Bytes, children: seq<Atom>,
                                    d: Bytes, pos: nat, size: nat, kids: seq<Node>)
    requires Spelled(s, path, typ, ext, props, children, d, pos, size) && pos + size <= |d|
    requires ChildrenAt(s, path, d, pos + 8 + |ext| + |props|, pos + size) == Success(kids)
    ensures AtomWith(s, path, d, pos, Header(typ, ext, size, 8 + |ext|), pos + size) == Success(Node(pos, pos + size, typ, ext, props, kids))
  {
    PropsRead(s, path, d, pos + 8 + |ext|, pos + size, props);
  }

  lemma {:induction false} ChildrenRead(s: Schema, path: seq<Bytes>, children: seq<Atom>, d: Bytes, pos: nat, end: nat)
    requires AllConform(s, path, children) && At(d, pos, EncodeAll(children)) && |d| < TWO64
    requires end == pos + |EncodeAll(children)|
    requires (s.kind(path).Known? && s.kind(path).container) || children == []
    ensures ChildrenAt(s, path, d, pos, end) == Success(LocatedAll(children, pos))
    decreases |EncodeAll(children)|, 4
  {
    AtomsRead(s, path, children, d, pos, end);
  }

  lemma PlainSuits(s: Schema, parents: seq<Bytes>, a: Atom)
    requires Conforms(s, parents, a)
    ensures var b := Plain(a);
            && |Encode(a)| <= MAX32 && |b.typ| == 4 && |b.ext| == (if b.typ == UUID then 16 else 0)
            && Suits(s, parents + [b.typ], b.props, b.children) && AllConform(s, parents + [b.typ], b.children)
  {}

  lemma LocatedPlain(a: Atom, pos: nat)
    ensures var b := Plain(a);
            Located(a, pos) == Node(pos, pos + |Encode(a)|, b.typ, b.ext, b.props,
                                    LocatedAll(b.children, pos + 8 + |b.ext| + |b.props|))
  {}

  /** The parts of an atom, and what is read of them. */
  lemma {:induction false} Dissect(s: Schema, parents: seq<Bytes>, a: Atom, d: Bytes, pos: nat) returns (b: Atom, size: nat)
    requires Conforms(s, parents, a) && At(d, pos, Encode(a)) && |d| < TWO64
    ensures b.Box? && size == |Encode(a)| && |EncodeAll(b.children)| < size
    ensures Spelled(s, parents + [b.typ], b.typ, b.ext, b.props, b.children, d, pos, size)
    ensures Located(a, pos) == Node(pos, pos + size, b.typ, b.ext, b.props, LocatedAll(b.children, pos + 8 + |b.ext| + |b.props|))
  {
    b, size := Plain(a), |Encode(a)|;
    PlainParts(a, d, pos);
    PlainSuits(s, parents, a);
    LocatedPlain(a, pos);
  }

  /** The reader finds an atom wherever its encoding stands. */
  lemma {:induction false} AtomRead(s: Schema, parents: seq<Bytes>, a: Atom, d: Bytes, pos: nat, parentEnd: nat)
    requires Conforms(s, parents, a) && At(d, pos, Encode(a)) && |d| < TWO64
    requires pos + |Encode(a)| <= parentEnd <= |d|
    ensures pos + 8 <= parentEnd
    ensures AtomAt(s, parents, d, pos, parentEnd) == Success(Located(a, pos))
    decreases |Encode(a)|, 1
  {
    var b, size := Dissect(s, parents, a, d, pos);
    BoxRead(s, parents, b.typ, b.ext, b.props, b.children, d, pos, size, parentEnd);
  }

  lemma AtCons(d: Bytes, pos: nat, as_: seq<Atom>)
    requires as_ != [] && At(d, pos, EncodeAll(as_))
    ensures At(d, pos, Encode(as_[0])) && At(d, pos + |Encode(as_[0])|, EncodeAll(as_[1..]))
    ensures |EncodeAll(as_)| == |Encode(as_[0])| + |EncodeAll(as_[1..])|
  {
    EncodeAllCons(as_);
    AtPart(d, pos, Encode(as_[0]), EncodeAll(as_[1..]));
  }

  lemma LocatedCons(as_: seq<Atom>, pos: nat)
    requires as_ != []
    ensures LocatedAll(as_, pos) == [Located(as_[0], pos)] + LocatedAll(as_[1..], pos + |Encode(as_[0])|)
  {}

  ghost predicate Gives(s: Schema, path: seq<Bytes>, d: Bytes, pos: nat, end: nat, ns: seq<Node>) {
    pos <= end <= |d| && AtomsAt(s, path, d, pos, end) == Success(ns)
  }

  lemma NothingRead(s: Schema, path: seq<Bytes>, d: Bytes, pos: nat)
    requires pos <= |d|
    ensures Gives(s, path, d, pos, pos, LocatedAll([], pos))
  {}

  lemma {:induction false} AtomsRead(s: Schema, path: seq<Bytes>, as_: seq<Atom>, d: Bytes, pos: nat, end: nat)
    requires AllConform(s, path, as_) && At(d, pos, EncodeAll(as_)) && |d| < TWO64
    requires end == pos + |EncodeAll(as_)|
    ensures Gives(s, path, d, pos, end, LocatedAll(as_, pos))
    decreases |EncodeAll(as_)|, 3
  {
    if as_ == [] {
      NothingRead(s, path, d, pos);
    } else {
      var next := FirstRead(s, path, as_, d, pos, end);
      AtomsRead(s, path, as_[1..], d, next, end);
      AtomsStep(s, path, d, pos, end, Located(as_[0], pos), next, LocatedAll(as_[1..], next));
      LocatedCons(as_, pos);
    }
  }

  /** The first of several atoms is read, and the others follow. */
  lemma {:induction false} FirstRead(s: Schema, path: seq<Bytes>, as_: seq<Atom>, d: Bytes, pos: nat, end: nat) returns (next: nat)
    requires as_ != [] && AllConform(s, path, as_) && At(d, pos, EncodeAll(as_)) && |d| < TWO64
    requires end == pos + |EncodeAll(as_)|
    ensures pos + 8 <= end && next == pos + |Encode(as_[0])| == Located(as_[0], pos).end
    ensures AtomAt(s, path, d, pos, end) == Success(Located(as_[0], pos))
    ensures AllConform(s, path, as_[1..]) && At(d, next, EncodeAll(as_[1..])) && end == next + |EncodeAll(as_[1..])|
    ensures |EncodeAll(as_[1..])| < |EncodeAll(as_)|
    decreases |EncodeAll(as_)|, 2
  {
    next := pos + |Encode(as_[0])|;
    AtCons(d, pos, as_);
    AtomRead(s, path, as_[0], d, pos, end);
  }

  lemma AtomsStep(s: Schema, path: seq<Bytes>, d: Bytes, pos: nat, end: nat, first: Node, next: nat, rest: seq<Node>)
    requires pos + 8 <= end <= |d| && AtomAt(s, path, d, pos, end) == Success(first) && first.end == next
    requires Gives(s, path, d, next, end, rest)
    ensures Gives(s, path, d, pos, end, [first] + rest)
  {}

  lemma StripLocated(a: Atom, pos: nat)
    ensures Strip(Located(a, pos)) == Flat(a)
    decreases a, 1
  {
    if a.Box? { StripLocatedAll(a.children, pos + 8 + |a.ext| + |a.props|); }
  }

  lemma {:induction false} StripLocatedAll(as_: seq<Atom>, pos: nat)
    ensures StripAll(LocatedAll(as_, pos)) == FlatAll(as_)
    decreases as_
  {
    if as_ != [] {
      StripLocated(as_[0], pos);
      StripLocatedAll(as_[1..], pos + |Encode(as_[0])|);
      StripCons(Located(as_[0], pos), LocatedAll(as_[1..], pos + |Encode(as_[0])|));
    }
  }

  lemma StripCons(n: Node, ns: seq<Node>)
    ensures StripAll([n] + ns) == [Strip(n)] + StripAll(ns)
  {
    assert ([n] + ns)[1..] == ns;
  }

  /** Reading back what `Write` left in a file gives the same tree. */
  lemma WriteThenRead(s: Schema, parents: seq<Bytes>, a: Atom, d: Bytes, pos: nat, parentEnd: nat, steps: nat)
    requires Conforms(s, parents, a) && steps >= parentEnd - pos
    requires pos + |Encode(a)| <= parentEnd <= |Put(d, pos, Encode(a))| < TWO64
    ensures pos + 8 <= parentEnd
    ensures var r := AtomIn(s, parents, Put(d, pos, Encode(a)), pos, parentEnd, steps);
            && r.Success? && Strip(r.value) == Flat(a)
            && r.value.start == pos && r.value.end == pos + |Encode(a)|
  {
    PutAt(d, pos, Encode(a));
    AtomRead(s, parents, a, Put(d, pos, Encode(a)), pos, parentEnd);
    StraightAtom(s, parents, Put(d, pos, Encode(a)), pos, parentEnd, steps);
    StripLocated(a, pos);
  }

  /** The offsets of a table read as bytes. */
  function Offsets(props: Bytes, wide: bool, n: nat): (os: seq<nat>)
    ensures |os| == n
    decreases n
  {
    if n == 0 then []
    else
      var w := if wide then 8 else 4;
      var k := |props| - w;
      if k < 0 then Offsets([], wide, n - 1) + [0] else Offsets(props[..k], wide, n - 1) + [Number(props[k..])]
  }

  ghost predicate Restores(offsets: seq<nat>, wide: bool) {
    Offsets(Table(offsets, wide), wide, |offsets|) == offsets
  }

  /** Whichever form is chosen, the table gives the offsets back. */
  lemma {:induction false} TableRestored(offsets: seq<nat>, wide: bool)
    requires forall i :: 0 <= i < |offsets| ==> offsets[i] <= if wide then TWO64 - 1 else MAX32
    ensures Restores(offsets, wide)
  {
    if offsets != [] {
      var front, last := offsets[..|offsets| - 1], offsets[|offsets| - 1];
      TableRestored(front, wide);
      TableNext(front, last, wide);
      FrontAndLast(offsets);
    }
  }

  lemma FrontAndLast(offsets: seq<nat>)
    requires offsets != []
    ensures offsets == offsets[..|offsets| - 1] + [offsets[|offsets| - 1]]
  {}

  lemma TableNext(front: seq<nat>, last: nat, wide: bool)
    requires Restores(front, wide) && last <= if wide then TWO64 - 1 else MAX32
    ensures Restores(front + [last], wide)
  {
    FieldRestored(last, wide);
    assert (front + [last])[..|front|] == front;
    OffsetsNext(Table(front, wide), wide, |front|, OffsetField(last, wide));
  }

  lemma FieldRestored(offset: nat, wide: bool)
    requires offset <= if wide then TWO64 - 1 else MAX32
    ensures Number(OffsetField(offset, wide)) == offset
  {}

  lemma OffsetsNext(front: Bytes, wide: bool, n: nat, last: Bytes)
    requires |last| == if wide then 8 else 4
    ensures Offsets(front + last, wide, n + 1) == Offsets(front, wide, n) + [Number(last)]
  {
    var k := |front|;
    assert (front + last)[..k] == front && (front + last)[k..] == last;
  }

  /** A table of chunk offsets, read as an atom of its type, gives the offsets
      back to a reader that goes by the type. */
  lemma TypedTableRestored(flags: Bytes, offsets: seq<nat>, pos: nat)
    requires |flags| == 4 && |offsets| <= MAX32 && forall i :: 0 <= i < |offsets| ==> offsets[i] < TWO64
    ensures var n := Located(ChunkOffsets(flags, offsets), pos);
            && n.typ == (if exists i :: 0 <= i < |offsets| && offsets[i] > 0xFFFF_FFFF
                         then [0x63, 0x6F, 0x36, 0x34] else [0x73, 0x74, 0x63, 0x6F])
            && n.children == [] && |n.props| >= 8 && Number(n.props[4..8]) == |offsets|
            && Offsets(n.props[8..], n.typ == [0x63, 0x6F, 0x36, 0x34], |offsets|) == offsets
  {
    var n, wide := Located(ChunkOffsets(flags, offsets), pos), Wide(offsets);
    TableRestored(offsets, wide);
    assert n.props == flags + U32(|offsets|) + Table(offsets, wide);
    assert n.props[4..8] == U32(|offsets|) && n.props[8..] == Table(offsets, wide);
  }

  lemma SmallWord(a: byte, b: byte)
    ensures U32(0x100 * (a as nat) + b) == [0, 0, a, b]
  {
    var bs: Bytes := [0, 0, a, b];
    FourBytes(bs);
    BigEndianOfNumber(bs);
    assert Number(bs) == 0x100 * (a as nat) + b;
  }

  lemma SmallTable()
    ensures Table([48, 4096], false) == [0, 0, 0, 48, 0, 0, 16, 0]
  {
    var offsets: seq<nat> := [48, 4096];
    SmallWord(0, 48);
    SmallWord(16, 0);
    assert offsets[..1] == [48] && offsets[..1][..0] == [];
    assert Table(offsets[..1], false) == [] + U32(48);
  }

  lemma SmallTableEncoded()
    ensures Encode(ChunkOffsets([0, 0, 0, 0], [48, 4096])) ==
            [0, 0, 0, 24] + ([0x73, 0x74, 0x63, 0x6F] + [] + ([0, 0, 0, 0] + [0, 0, 0, 2] + [0, 0, 0, 48, 0, 0, 16, 0]))
  {
    SmallTable();
    SmallWord(0, 2);
    SmallWord(0, 24);
  }

  lemma OneChildEncoded(typ: Bytes, child: Atom)
    ensures Encode(Box(typ, [], [], [child])) == U32(4 + |typ| + |Encode(child)|) + (typ + Encode(child))
  {
    var children := [child];
    assert children[..0] == [];
    assert EncodeAll(children) == [] + Encode(child);
    assert Body(Box(typ, [], [], children)) == typ + Encode(child);
  }

  /** A movie that holds nothing but a table of two offsets, byte for byte. */
  lemma SmallMovie()
    ensures Encode(Box([0x6D, 0x6F, 0x6F, 0x76], [], [], [ChunkOffsets([0, 0, 0, 0], [48, 4096])])) ==
            [0, 0, 0, 32] + ([0x6D, 0x6F, 0x6F, 0x76] +
            ([0, 0, 0, 24] + ([0x73, 0x74, 0x63, 0x6F] + [] + ([0, 0, 0, 0] + [0, 0, 0, 2] + [0, 0, 0, 48, 0, 0, 16, 0]))))
  {
    SmallTableEncoded();
    SmallWord(0, 32);
    OneChildEncoded([0x6D, 0x6F, 0x6F, 0x76], ChunkOffsets([0, 0, 0, 0], [48, 4096]));
  }
}
