/** Reading atoms from any bytes (`ReadAtom`, `Read` and `ReadChildAtoms` in
    mp4v2/src/mp4atom.cpp). */
module AtomParser {
  import opened Wrappers
  import opened ByteFile
  import opened Atoms

  /** How atoms of a type are read: unknown ones are all data; known ones have
      fields or none, and are read for children or not. */
  datatype Kind = Unknown | Known(fields: bool, container: bool)

  /** What is known about atom types, which may depend on the atoms around
      them: a path lists the types from the outermost atom to the one meant.
      `length` is how many bytes its fields take, given the bytes ahead. */
  datatype Schema = Schema(kind: seq<Bytes> -> Kind, length: (seq<Bytes>, Bytes) -> nat)

  /** `Rewinds` stands for a header whose end, a 64-bit sum, wraps to a place
      before the atom, and `Unfinished` for a reader that was not done. */
  datatype Error = EndOfFile | BadSize | Overrun | Rewinds | Unfinished

  /** An atom as read, with the stretch of the file it takes. */
  datatype Node = Node(start: nat, end: nat, typ: Bytes, ext: Bytes, props: Bytes, children: seq<Node>)

  datatype Header = Header(typ: Bytes, ext: Bytes, size: nat, length: nat)

  /** The header at `pos`: size 1 announces a 64-bit size, size 0 means to the
      end of the file. */
  ghost function HeaderAt(d: Bytes, pos: nat): (r: Result<Header, Error>)
    requires pos + 8 <= |d|
    ensures r.Success? ==> 8 <= r.value.length <= r.value.size && pos + r.value.length <= |d|
  {
    var first, typ := Number(d[pos..pos + 4]), d[pos + 4..pos + 8];
    if first == 1 && pos + 16 > |d| then Failure(EndOfFile)
    else
      var given, here := if first == 1 then Number(d[pos + 8..pos + 16]) else first, pos + if first == 1 then 16 else 8;
      if typ == UUID && here + 16 > |d| then Failure(EndOfFile)
      else
        var ext := if typ == UUID then d[here..here + 16] else [];
        var size := if given == 0 then |d| - pos else given;
        var length := here - pos + |ext|;
        if size < length then Failure(BadSize) else Success(Header(typ, ext, size, length))
  }

  function Least(a: nat, b: nat): nat {
    if a < b then a else b
  }

  /** Where an atom is taken to end: at a 64-bit sum, cut short at the end of
      its parent. */
  function EndAt(pos: nat, size: nat, parentEnd: nat): (end: nat)
    ensures end <= parentEnd
  {
    Least((pos + size) % TWO64, parentEnd)
  }

  /** An atom ends behind its start exactly when the sum does not wrap. */
  lemma EndIsAheadIff(d: Bytes, pos: nat, parentEnd: nat)
    requires pos + 8 <= parentEnd <= |d| < TWO64 && HeaderAt(d, pos).Success?
    ensures var size := HeaderAt(d, pos).value.size;
            pos + 8 <= EndAt(pos, size, parentEnd) <= parentEnd <==> pos + size < TWO64
  {
    HeaderSize(d, pos);
    var size := HeaderAt(d, pos).value.size;
    if pos + size >= TWO64 {
      assert (pos + size) % TWO64 == pos + size - TWO64;
    }
  }

  lemma HeaderSize(d: Bytes, pos: nat)
    requires pos + 8 <= |d| < TWO64 && HeaderAt(d, pos).Success?
    ensures HeaderAt(d, pos).value.size < TWO64
  {
    Widths();
    BigEndianOfNumber(d[pos..pos + 4]);
    if pos + 16 <= |d| { BigEndianOfNumber(d[pos + 8..pos + 16]); }
  }

  /** Where the properties end that start at `body`, in an atom up to `end`.
      Those of an unknown atom are all its data, with a 32-bit length. */
  ghost function PropsEnd(s: Schema, path: seq<Bytes>, d: Bytes, body: nat, end: nat): (r: Result<nat, Error>)
    requires body <= |d| && end <= |d|
    ensures r.Success? ==> body <= r.value <= |d| && (r.value > body ==> r.value <= end)
  {
    if s.kind(path) == Known(false, true) || s.kind(path) == Known(false, false) then Success(body)
    else
      var n := if s.kind(path).Unknown? then (end - body) % (MAX32 + 1) else s.length(path, d[body..]);
      if body + n > |d| then Failure(EndOfFile) else if body + n > end then Failure(Overrun) else Success(body + n)
  }

  // ---- What is read of an atom, stated without saying how ----

  /** How long the header at `pos` is: a size of 1 announces another eight bytes
      of size, and the type `uuid` sixteen bytes of extended type. */
  function HeaderLength(d: Bytes, pos: nat): (n: nat)
    requires pos + 8 <= |d|
  {
    8 + (if d[pos..pos + 4] == [0, 0, 0, 1] then 8 else 0) + (if d[pos + 4..pos + 8] == [0x75, 0x75, 0x69, 0x64] then 16 else 0)
  }

  /** The size it gives, in four bytes or eight. */
  function GivenSize(d: Bytes, pos: nat): (n: nat)
    requires pos + 8 <= |d| && pos + HeaderLength(d, pos) <= |d|
  {
    if d[pos..pos + 4] == [0, 0, 0, 1] then Number(d[pos + 8..pos + 16]) else Number(d[pos..pos + 4])
  }

  /** A header is refused if the file ends in it or the size it gives does not
      cover it; a size of 0 reaches to the end of the file. */
  predicate HeaderRule(d: Bytes, pos: nat, r: Result<Header, Error>)
    requires pos + 8 <= |d|
  {
    var n, typ := HeaderLength(d, pos), d[pos + 4..pos + 8];
    if pos + n > |d| then r == Failure(EndOfFile)
    else
      var size := GivenSize(d, pos);
      if 0 < size < n then r == Failure(BadSize)
      else
        && r.Success? && r.value.length == n && r.value.typ == typ
        && r.value.size == (if size == 0 then |d| - pos else size)
        && r.value.ext == if typ == [0x75, 0x75, 0x69, 0x64] then d[pos + n - 16..pos + n] else []
  }

  lemma SizeIsOne(bs: Bytes)
    requires |bs| == 4
    ensures Number(bs) == 1 <==> bs == [0, 0, 0, 1]
  {
    FourBytes(bs);
  }

  lemma HeaderObeys(d: Bytes, pos: nat)
    requires pos + 8 <= |d|
    ensures HeaderRule(d, pos, HeaderAt(d, pos))
  {
    SizeIsOne(d[pos..pos + 4]);
  }

  /** An atom ends where its size says, or with its parent if that is first. If
      its type is unknown, all its data are one property; if it is known, its
      fields follow the header, and there are children if it may have any. */
  ghost predicate AtomRule(s: Schema, parents: seq<Bytes>, d: Bytes, pos: nat, parentEnd: nat, n: Node)
    requires pos + 8 <= parentEnd <= |d|
  {
    && pos + HeaderLength(d, pos) <= |d|
    && n.start == pos && n.typ == d[pos + 4..pos + 8] && n.end <= parentEnd
    && var body, size := pos + HeaderLength(d, pos), GivenSize(d, pos);
       && n.ext == (if n.typ == [0x75, 0x75, 0x69, 0x64] then d[body - 16..body] else [])
       && (size == 0 && |d| < TWO64 ==> n.end == parentEnd)
       && (size > 0 && pos + size < TWO64 ==> n.end == if pos + size <= parentEnd then pos + size else parentEnd)
       && match s.kind(parents + [n.typ])
          case Unknown => n.children == [] && (body <= n.end <= body + MAX32 ==> n.props == d[body..n.end])
          case Known(fields, container) =>
            && (!container ==> n.children == [])
            && (!fields ==> n.props == [])
            && (fields ==> body + s.length(parents + [n.typ], d[body..]) <= |d|
                           && n.props == d[body..body + s.length(parents + [n.typ], d[body..])])
  }

  /** What is read of an atom, if anything is, is as the rule says. */
  ghost predicate ReadRule(s: Schema, parents: seq<Bytes>, d: Bytes, pos: nat, parentEnd: nat, r: Result<Node, Error>)
    requires pos + 8 <= parentEnd <= |d|
  {
    r.Success? ==> AtomRule(s, parents, d, pos, parentEnd, r.value)
  }

  lemma AtomObeys(s: Schema, parents: seq<Bytes>, d: Bytes, pos: nat, parentEnd: nat, steps: nat)
    requires pos + 8 <= parentEnd <= |d|
    ensures ReadRule(s, parents, d, pos, parentEnd, AtomIn(s, parents, d, pos, parentEnd, steps))
  {
    HeaderObeys(d, pos);
    if AtomIn(s, parents, d, pos, parentEnd, steps).Success? {
      var h := HeaderAt(d, pos).value;
      EndRule(pos, h.size, parentEnd, h.length);
    }
  }

  lemma EndRule(pos: nat, size: nat, parentEnd: nat, length: nat)
    ensures pos + size < TWO64 ==> EndAt(pos, size, parentEnd) == if pos + size <= parentEnd then pos + size else parentEnd
    ensures var n := EndAt(pos, size, parentEnd) - (pos + length); 0 <= n <= MAX32 ==> n % (MAX32 + 1) == n
  {
    if pos + size < TWO64 { assert (pos + size) % TWO64 == pos + size; }
  }

  // ---- Reading straight ahead ----

  /** The atom at `pos` inside a parent that ends at `parentEnd`; it is cut
      short there if its size says otherwise. */
  ghost function AtomAt(s: Schema, parents: seq<Bytes>, d: Bytes, pos: nat, parentEnd: nat): (r: Result<Node, Error>)
    requires pos + 8 <= parentEnd <= |d|
    ensures r.Success? ==> r.value.start == pos && pos + 8 <= r.value.end <= parentEnd
    decreases parentEnd - pos, 2
  {
    match HeaderAt(d, pos)
    case Failure(e) => Failure(e)
    case Success(h) =>
      var path, end := parents + [h.typ], EndAt(pos, h.size, parentEnd);
      if end >= pos + 8 then AtomWith(s, path, d, pos, h, end)
      else
        match PropsEnd(s, path, d, pos + h.length, end)
        case Failure(e) => Failure(e)
        case Success(_) => Failure(Rewinds)
  }

  /** The atom up to `end` whose header is `h`. */
  ghost function AtomWith(s: Schema, path: seq<Bytes>, d: Bytes, pos: nat, h: Header, end: nat): (r: Result<Node, Error>)
    requires 8 <= h.length && pos + h.length <= |d| && pos + 8 <= end <= |d|
    ensures r.Success? ==> r.value.start == pos && r.value.end == end
    decreases end - pos, 1
  {
    match PropsEnd(s, path, d, pos + h.length, end)
    case Failure(e) => Failure(e)
    case Success(p) =>
      match ChildrenAt(s, path, d, p, end)
      case Failure(e) => Failure(e)
      case Success(children) => Success(Node(pos, end, h.typ, h.ext, d[pos + h.length..p], children))
  }

  ghost function ChildrenAt(s: Schema, path: seq<Bytes>, d: Bytes, pos: nat, end: nat): Result<seq<Node>, Error>
    requires end <= |d|
    decreases end - pos, 4
  {
    if Contains(s, path) then AtomsAt(s, path, d, pos, end) else Success([])
  }

  ghost predicate Contains(s: Schema, path: seq<Bytes>) {
    s.kind(path).Known? && s.kind(path).container
  }

  /** The atoms from `pos` up to `end`; fewer than eight bytes left over are
      passed by. */
  ghost function AtomsAt(s: Schema, path: seq<Bytes>, d: Bytes, pos: nat, end: nat): Result<seq<Node>, Error>
    requires end <= |d|
    decreases end - pos, 3
  {
    if pos + 8 > end then Success([])
    else
      match AtomAt(s, path, d, pos, end)
      case Failure(e) => Failure(e)
      case Success(first) =>
        match AtomsAt(s, path, d, first.end, end)
        case Failure(e) => Failure(e)
        case Success(rest) => Success([first] + rest)
  }

  // ---- Reading wherever the ends lead ----

  /** The atom at `pos` as the program reads it, up to an end that may lie
      before it; at most `steps` atoms are read one after the other. */
  ghost function AtomIn(s: Schema, parents: seq<Bytes>, d: Bytes, pos: nat, parentEnd: nat, steps: nat): (r: Result<Node, Error>)
    requires pos + 8 <= parentEnd <= |d|
    ensures r.Success? ==> r.value.start == pos && r.value.end <= parentEnd
    decreases steps, 1
  {
    match HeaderAt(d, pos)
    case Failure(e) => Failure(e)
    case Success(h) =>
      var path, end := parents + [h.typ], EndAt(pos, h.size, parentEnd);
      match PropsEnd(s, path, d, pos + h.length, end)
      case Failure(e) => Failure(e)
      case Success(p) =>
        match if Contains(s, path) then AtomsIn(s, path, d, p, end, steps) else Success([])
        case Failure(e) => Failure(e)
        case Success(children) => Success(Node(pos, end, h.typ, h.ext, d[pos + h.length..p], children))
  }

  ghost function AtomsIn(s: Schema, path: seq<Bytes>, d: Bytes, pos: nat, end: nat, steps: nat): Result<seq<Node>, Error>
    requires end <= |d|
    decreases steps, 0
  {
    if pos + 8 > end then Success([])
    else if steps == 0 then Failure(Unfinished)
    else
      match AtomIn(s, path, d, pos, end, steps - 1)
      case Failure(e) => Failure(e)
      case Success(first) =>
        match AtomsIn(s, path, d, first.end, end, steps - 1)
        case Failure(e) => Failure(e)
        case Success(rest) => Success([first] + rest)
  }

  /** As long as no header leads back, the program reads what reading straight
      ahead gives, and is done after a step for every byte at most. */
  lemma {:induction false} StraightAhead(s: Schema, path: seq<Bytes>, d: Bytes, pos: nat, end: nat, steps: nat)
    requires end <= |d| && AtomsAt(s, path, d, pos, end) != Failure(Rewinds)
    requires pos <= end ==> steps >= end - pos
    ensures AtomsIn(s, path, d, pos, end, steps) == AtomsAt(s, path, d, pos, end)
    decreases steps, 0
  {
    if pos + 8 <= end {
      StraightAtom(s, path, d, pos, end, steps - 1);
      if AtomAt(s, path, d, pos, end).Success? {
        StraightAhead(s, path, d, AtomAt(s, path, d, pos, end).value.end, end, steps - 1);
      }
    }
  }

  lemma {:induction false} StraightAtom(s: Schema, parents: seq<Bytes>, d: Bytes, pos: nat, parentEnd: nat, steps: nat)
    requires pos + 8 <= parentEnd <= |d| && AtomAt(s, parents, d, pos, parentEnd) != Failure(Rewinds)
    requires steps >= parentEnd - pos - 1
    ensures AtomIn(s, parents, d, pos, parentEnd, steps) == AtomAt(s, parents, d, pos, parentEnd)
    decreases steps, 1
  {
    match HeaderAt(d, pos) {
      case Failure(_) =>
      case Success(h) =>
        var path, end := parents + [h.typ], EndAt(pos, h.size, parentEnd);
        if end >= pos + 8 {
          assert AtomAt(s, parents, d, pos, parentEnd) == AtomWith(s, path, d, pos, h, end);
          var p := PropsEnd(s, path, d, pos + h.length, end);
          if p.Success? {
            assert ChildrenAt(s, path, d, p.value, end) == if Contains(s, path) then AtomsAt(s, path, d, p.value, end) else Success([]);
            if Contains(s, path) { StraightAhead(s, path, d, p.value, end, steps); }
          }
        }
    }
  }

  const SMALL_FREE: Bytes := [0, 0, 0, 8] + FREE
  const HUGE: Bytes := [0xFF, 0xFF, 0xFF, 0xFF, 0xFF, 0xFF, 0xFF, 0xF8]

  /** The second of these atoms ends where the first begins. */
  const ENDLESS: Bytes := SMALL_FREE + ([0, 0, 0, 1] + FREE + HUGE)

  /** A header that leads back stops reading straight ahead, but not the
      program, which reads these two atoms for ever. */
  lemma {:induction false} ReadsForEver(s: Schema, steps: nat)
    requires s.kind([FREE]) == Known(false, false)
    ensures |ENDLESS| == 24 && AtomsIn(s, [], ENDLESS, 0, 24, steps) == Failure(Unfinished)
    ensures AtomsAt(s, [], ENDLESS, 0, 24) == Failure(Rewinds)
  {
    EndlessHeaders();
    assert [] + [FREE] == [FREE];
    assert EndAt(0, 8, 24) == 8 && EndAt(8, TWO64 - 8, 24) == 0;
    if steps > 1 {
      ReadsForEver(s, steps - 2);
    }
    EndlessSteps(s, ENDLESS, steps);
  }

  /** Two steps lead from the first atom back to it. */
  lemma EndlessSteps(s: Schema, d: Bytes, steps: nat)
    requires s.kind([] + [FREE]) == Known(false, false) && |d| == 24
    requires HeaderAt(d, 0) == Success(Header(FREE, [], 8, 8)) && HeaderAt(d, 8) == Success(Header(FREE, [], TWO64 - 8, 16))
    requires steps > 1 ==> AtomsIn(s, [], d, 0, 24, steps - 2) == Failure(Unfinished)
    ensures AtomsIn(s, [], d, 0, 24, steps) == Failure(Unfinished) && AtomsAt(s, [], d, 0, 24) == Failure(Rewinds)
  {
    assert EndAt(0, 8, 24) == 8 && EndAt(8, TWO64 - 8, 24) == 0;
    EndlessStraight(s, d);
    if steps > 0 {
      assert AtomIn(s, [], d, 0, 24, steps - 1).Success?;
      if steps > 1 { assert AtomIn(s, [], d, 8, 24, steps - 2).Success?; }
      assert AtomsIn(s, [], d, 8, 24, steps - 1) == Failure(Unfinished);
    }
  }

  lemma EndlessStraight(s: Schema, d: Bytes)
    requires s.kind([] + [FREE]) == Known(false, false) && |d| == 24
    requires HeaderAt(d, 0) == Success(Header(FREE, [], 8, 8)) && HeaderAt(d, 8) == Success(Header(FREE, [], TWO64 - 8, 16))
    ensures AtomsAt(s, [], d, 0, 24) == Failure(Rewinds)
  {
    assert EndAt(0, 8, 24) == 8 && EndAt(8, TWO64 - 8, 24) == 0;
    assert ChildrenAt(s, [] + [FREE], d, 8, 8) == Success([]);
    assert AtomWith(s, [] + [FREE], d, 0, Header(FREE, [], 8, 8), 8).Success?;
    assert AtomAt(s, [], d, 0, 24).Success?;
    assert AtomAt(s, [], d, 8, 24) == Failure(Rewinds);
  }

  lemma EndlessHeaders()
    ensures |ENDLESS| == 24
    ensures HeaderAt(ENDLESS, 0) == Success(Header(FREE, [], 8, 8))
    ensures HeaderAt(ENDLESS, 8) == Success(Header(FREE, [], TWO64 - 8, 16))
  {
    var d := ENDLESS;
    assert d[0..4] == U32(8) by { assert U32(8) == [0, 0, 0, 8]; }
    assert d[4..8] == FREE && d[12..16] == FREE;
    assert d[8..12] == U32(1) by { assert U32(1) == [0, 0, 0, 1]; }
    assert d[16..24] == HUGE;
    HugeNumber();
  }

  lemma HugeNumber()
    ensures Number(HUGE) == TWO64 - 8
  {
    var h := HUGE;
    assert h[..0] == [];
    NumberNext(h, 0);
    NumberNext(h, 1);
    NumberNext(h, 2);
    NumberNext(h, 3);
    NumberNext(h, 4);
    NumberNext(h, 5);
    NumberNext(h, 6);
    NumberNext(h, 7);
    assert h[..8] == h;
  }

  lemma NumberNext(bs: Bytes, k: nat)
    requires k < |bs|
    ensures Number(bs[..k + 1]) == 256 * Number(bs[..k]) + bs[k]
  {
    assert bs[..k + 1][..k] == bs[..k];
  }

  // ---- Geometry ----

  /** An atom lies inside its parent with its children one after the other
      behind its header, up to its own end. */
  ghost predicate Placed(n: Node, low: nat, high: nat)
    decreases n, 1
  {
    && low <= n.start && n.start + 8 <= n.end <= high
    && (n.children != [] ==> n.start + 8 <= n.children[0].start && Tiled(n.children, n.children[0].start, n.end))
  }

  /** Siblings abut, and fewer than eight bytes are left after the last. */
  ghost predicate Tiled(ns: seq<Node>, from: nat, end: nat)
    decreases ns, 0
  {
    if ns == [] then end < from + 8
    else ns[0].start == from && Placed(ns[0], from, end) && Tiled(ns[1..], ns[0].end, end)
  }

  /** What is read straight ahead lies inside its parent and abuts. */
  lemma AtomIsPlaced(s: Schema, parents: seq<Bytes>, d: Bytes, pos: nat, parentEnd: nat)
    requires pos + 8 <= parentEnd <= |d| && AtomAt(s, parents, d, pos, parentEnd).Success?
    ensures Placed(AtomAt(s, parents, d, pos, parentEnd).value, pos, parentEnd)
    decreases parentEnd - pos, 2
  {
    var h := HeaderAt(d, pos).value;
    WithIsPlaced(s, parents + [h.typ], d, pos, h, EndAt(pos, h.size, parentEnd));
  }

  lemma WithIsPlaced(s: Schema, path: seq<Bytes>, d: Bytes, pos: nat, h: Header, end: nat)
    requires 8 <= h.length && pos + h.length <= |d| && pos + 8 <= end <= |d|
    requires AtomWith(s, path, d, pos, h, end).Success?
    ensures Placed(AtomWith(s, path, d, pos, h, end).value, pos, end)
    decreases end - pos, 1
  {
    var p := PropsEnd(s, path, d, pos + h.length, end).value;
    if Contains(s, path) {
      assert ChildrenAt(s, path, d, p, end) == AtomsAt(s, path, d, p, end);
      AtomsAreTiled(s, path, d, p, end);
    }
  }

  lemma {:induction false} AtomsAreTiled(s: Schema, path: seq<Bytes>, d: Bytes, pos: nat, end: nat)
    requires end <= |d| && AtomsAt(s, path, d, pos, end).Success?
    ensures Tiled(AtomsAt(s, path, d, pos, end).value, pos, end)
    decreases end - pos, 3
  {
    if pos + 8 <= end {
      AtomIsPlaced(s, path, d, pos, end);
      var first := AtomAt(s, path, d, pos, end).value;
      AtomsAreTiled(s, path, d, first.end, end);
      var all := AtomsAt(s, path, d, pos, end).value;
      assert all[1..] == AtomsAt(s, path, d, first.end, end).value;
    }
  }

  /** Whatever the bytes, the atoms the program reads lie inside their parents
      and abut exactly when no header met on the way leads back. */
  lemma {:induction false} TiledIffStraight(s: Schema, path: seq<Bytes>, d: Bytes, pos: nat, end: nat, steps: nat)
    requires end <= |d| && AtomsIn(s, path, d, pos, end, steps).Success?
    ensures Tiled(AtomsIn(s, path, d, pos, end, steps).value, pos, end) <==> AtomsAt(s, path, d, pos, end) != Failure(Rewinds)
    ensures AtomsAt(s, path, d, pos, end) != Failure(Rewinds) ==> AtomsAt(s, path, d, pos, end) == AtomsIn(s, path, d, pos, end, steps)
    decreases steps, 0
  {
    if pos + 8 <= end {
      var first := AtomIn(s, path, d, pos, end, steps - 1).value;
      PlacedIffStraight(s, path, d, pos, end, steps - 1);
      TiledIffStraight(s, path, d, first.end, end, steps - 1);
      var all := AtomsIn(s, path, d, pos, end, steps).value;
      assert all[0] == first && all[1..] == AtomsIn(s, path, d, first.end, end, steps - 1).value;
    }
  }

  lemma PlacedIffStraight(s: Schema, parents: seq<Bytes>, d: Bytes, pos: nat, parentEnd: nat, steps: nat)
    requires pos + 8 <= parentEnd <= |d| && AtomIn(s, parents, d, pos, parentEnd, steps).Success?
    ensures Placed(AtomIn(s, parents, d, pos, parentEnd, steps).value, pos, parentEnd)
            <==> AtomAt(s, parents, d, pos, parentEnd) != Failure(Rewinds)
    ensures AtomAt(s, parents, d, pos, parentEnd) != Failure(Rewinds) ==>
              AtomAt(s, parents, d, pos, parentEnd) == AtomIn(s, parents, d, pos, parentEnd, steps)
    decreases steps, 1
  {
    var h := HeaderAt(d, pos).value;
    var path, end := parents + [h.typ], EndAt(pos, h.size, parentEnd);
    var p := PropsEnd(s, path, d, pos + h.length, end).value;
    if Contains(s, path) {
      var kids := AtomsIn(s, path, d, p, end, steps).value;
      TiledIffStraight(s, path, d, p, end, steps);
      if kids != [] { assert kids[0].start == p; }
    }
    if end >= pos + 8 {
      assert ChildrenAt(s, path, d, p, end) == if Contains(s, path) then AtomsAt(s, path, d, p, end) else Success([]);
    }
  }

  // ---- Reading ----

  /** Reads a header; the file is left behind it. */
  method ReadHeader(f: File) returns (r: Result<Header, Error>)
    requires f.pos + 8 <= |f.data|
    modifies f`pos
    ensures r == HeaderAt(f.data, old(f.pos))
    ensures HeaderRule(f.data, old(f.pos), r)
    ensures r.Success? ==> f.pos == old(f.pos) + r.value.length
  {
    HeaderObeys(f.data, f.pos);
    var pos, hdrSize := f.pos, 8;
    var first := f.ReadUInt32();
    var typ := f.ReadBytes(4);
    var dataSize := first.value;
    if dataSize == 1 {
      var large := f.ReadUInt64();
      if large == None {
        return Failure(EndOfFile);
      }
      dataSize := large.value;
      hdrSize := hdrSize + 8;
    }
    var extendedType := [];
    if typ.value == UUID {
      var ext := f.ReadBytes(16);
      if ext == None {
        return Failure(EndOfFile);
      }
      extendedType := ext.value;
      hdrSize := hdrSize + 16;
    }
    if dataSize == 0 {
      dataSize := |f.data| - pos;
    }
    if dataSize < hdrSize {
      return Failure(BadSize);
    }
    return Success(Header(typ.value, extendedType, dataSize, hdrSize));
  }

  /** Reads the properties of an atom; the file is left behind them. */
  method ReadProperties(f: File, s: Schema, path: seq<Bytes>, end: nat) returns (r: Result<nat, Error>)
    requires f.pos <= |f.data| && end <= |f.data|
    modifies f`pos
    ensures r == PropsEnd(s, path, f.data, old(f.pos), end)
    ensures r.Success? ==> f.pos == r.value
  {
    if s.kind(path).Unknown? || s.kind(path).fields {
      var n := if s.kind(path).Unknown? then (end - f.pos) % (MAX32 + 1) else s.length(path, f.data[f.pos..]);
      var bs := f.ReadBytes(n);
      if bs == None {
        return Failure(EndOfFile);
      }
      if f.pos > end {
        return Failure(Overrun);
      }
    }
    return Success(f.pos);
  }

  /** Reads the atom where the file stands; the file is left at its end, which
      may lie before it. */
  method ReadAtom(f: File, s: Schema, parents: seq<Bytes>, parentEnd: nat, steps: nat) returns (r: Result<Node, Error>)
    requires f.pos + 8 <= parentEnd <= |f.data|
    modifies f`pos
    ensures r == AtomIn(s, parents, f.data, old(f.pos), parentEnd, steps)
    ensures ReadRule(s, parents, f.data, old(f.pos), parentEnd, r)
    ensures r.Success? ==> f.pos == r.value.end
    decreases steps, 1
  {
    var pos := f.pos;
    AtomObeys(s, parents, f.data, pos, parentEnd, steps);
    var h := ReadHeader(f);
    if h.Failure? {
      return Failure(h.error);
    }
    var path, body, end := parents + [h.value.typ], f.pos, (pos + h.value.size) % TWO64;
    if end > parentEnd {
      end := parentEnd;
    }
    var p := ReadProperties(f, s, path, end);
    if p.Failure? {
      return Failure(p.error);
    }
    var children := [];
    if s.kind(path).Known? && s.kind(path).container {
      var cs := ReadChildAtoms(f, s, path, end, steps);
      if cs.Failure? {
        return Failure(cs.error);
      }
      children := cs.value;
    }
    f.SetPosition(end);
    return Success(Node(pos, end, h.value.typ, h.value.ext, f.data[body..p.value], children));
  }

  /** The children read so far followed by those still to come. */
  ghost function Prepend(front: seq<Node>, r: Result<seq<Node>, Error>): Result<seq<Node>, Error> {
    match r
    case Failure(e) => Failure(e)
    case Success(rest) => Success(front + rest)
  }

  lemma PrependNext(s: Schema, path: seq<Bytes>, d: Bytes, pos: nat, end: nat, front: seq<Node>)
    requires pos + 8 <= end <= |d|
    ensures Prepend(front, AtomsAt(s, path, d, pos, end)) ==
            match AtomAt(s, path, d, pos, end)
            case Failure(e) => Failure(e)
            case Success(child) => Prepend(front + [child], AtomsAt(s, path, d, child.end, end))
  {
    match AtomAt(s, path, d, pos, end) {
      case Failure(_) =>
      case Success(child) =>
        match AtomsAt(s, path, d, child.end, end) {
          case Failure(_) =>
          case Success(rest) => assert front + [child] + rest == front + ([child] + rest);
        }
    }
  }

  lemma PrependNextIn(s: Schema, path: seq<Bytes>, d: Bytes, pos: nat, end: nat, steps: nat, front: seq<Node>)
    requires pos + 8 <= end <= |d| && steps > 0
    ensures Prepend(front, AtomsIn(s, path, d, pos, end, steps)) ==
            match AtomIn(s, path, d, pos, end, steps - 1)
            case Failure(e) => Failure(e)
            case Success(child) => Prepend(front + [child], AtomsIn(s, path, d, child.end, end, steps - 1))
  {
    match AtomIn(s, path, d, pos, end, steps - 1) {
      case Failure(_) =>
      case Success(child) =>
        match AtomsIn(s, path, d, child.end, end, steps - 1) {
          case Failure(_) =>
          case Success(rest) => assert front + [child] + rest == front + ([child] + rest);
        }
    }
  }

  lemma PrependNothing(r: Result<seq<Node>, Error>)
    ensures Prepend([], r) == r
  {
    if r.Success? { assert [] + r.value == r.value; }
  }

  /** Reads children up to the end of their parent, where the file is left
      unless it was past it already. */
  method ReadChildAtoms(f: File, s: Schema, path: seq<Bytes>, end: nat, steps: nat) returns (r: Result<seq<Node>, Error>)
    requires end <= |f.data|
    modifies f`pos
    ensures r == AtomsIn(s, path, f.data, old(f.pos), end, steps)
    ensures r.Success? ==> f.pos == if old(f.pos) <= end then end else old(f.pos)
    decreases steps, 0
  {
    var children: seq<Node>, left: nat := [], steps;
    PrependNothing(AtomsIn(s, path, f.data, f.pos, end, steps));
    while f.pos < end
      invariant left <= steps && if old(f.pos) <= end then f.pos <= end else f.pos == old(f.pos)
      invariant Prepend(children, AtomsIn(s, path, f.data, f.pos, end, left)) == AtomsIn(s, path, f.data, old(f.pos), end, steps)
      decreases left, end - f.pos
    {
      var position := f.pos;
      if end - position < 8 {
        PassBy(f, end);
        continue;
      }
      if left == 0 {
        return Failure(Unfinished);
      }
      PrependNextIn(s, path, f.data, position, end, left, children);
      left := left - 1;
      var child := ReadAtom(f, s, path, end, left);
      if child.Failure? {
        return Failure(child.error);
      }
      children := children + [child.value];
    }
    assert children + [] == children;
    return Success(children);
  }

  /** Reads the bytes left over at the end of an atom. */
  method PassBy(f: File, end: nat)
    requires f.pos <= end <= |f.data|
    modifies f`pos
    ensures f.pos == end
  {
    var position := f.pos;
    for ix := 0 to end - position
      invariant f.pos == position + ix
    {
      var b := f.ReadBytes(1);
    }
  }
}
