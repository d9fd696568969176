/** What the finished file reads as: the first atoms and the index, one free
    atom, and the media data, one after the other to the end. */
module LayoutReads {
  import opened Wrappers
  import opened ByteFile
  import opened Atoms
  import opened AtomParser
  import opened AtomRoundTrip
  import opened OptimalLayout

  // ---- One atom after the other ----

  type Read = Result<seq<Node>, Error>

  /** A reader that may start anywhere finds these atoms from `pos` on. */
  ghost predicate Chained(read: nat -> Read, ns: seq<Node>, pos: nat)
    decreases |ns|
  {
    ns != [] ==> read(pos) == Prepend([ns[0]], read(ns[0].end)) && Chained(read, ns[1..], ns[0].end)
  }

  function EndOf(ns: seq<Node>, pos: nat): nat {
    if ns == [] then pos else ns[|ns| - 1].end
  }

  lemma PrependTwice(n: Node, ns: seq<Node>, r: Read)
    ensures Prepend([n], Prepend(ns, r)) == Prepend([n] + ns, r)
  {
    if r.Success? { assert [n] + (ns + r.value) == [n] + ns + r.value; }
  }

  lemma {:induction false} ChainRead(read: nat -> Read, ns: seq<Node>, pos: nat)
    requires Chained(read, ns, pos)
    ensures read(pos) == Prepend(ns, read(EndOf(ns, pos)))
    decreases |ns|
  {
    if ns == [] {
      PrependNothing(read(pos));
    } else {
      ChainRead(read, ns[1..], ns[0].end);
      assert EndOf(ns, pos) == EndOf(ns[1..], ns[0].end);
      PrependTwice(ns[0], ns[1..], read(EndOf(ns, pos)));
      assert ns == [ns[0]] + ns[1..];
    }
  }

  lemma {:induction false} ChainJoin(read: nat -> Read, a: seq<Node>, b: seq<Node>, pos: nat)
    requires Chained(read, a, pos) && Chained(read, b, EndOf(a, pos))
    ensures Chained(read, a + b, pos)
    decreases |a|
  {
    if a == [] {
      assert a + b == b;
    } else {
      assert EndOf(a, pos) == EndOf(a[1..], a[0].end);
      ChainJoin(read, a[1..], b, a[0].end);
      assert (a + b)[1..] == a[1..] + b;
    }
  }

  lemma ChainOne(read: nat -> Read, n: Node, pos: nat)
    requires read(pos) == Prepend([n], read(n.end))
    ensures Chained(read, [n], pos)
  {
    assert [n][1..] == [];
  }

  /** The reader of a stretch of a file. */
  ghost function Reader(s: Schema, path: seq<Bytes>, d: Bytes, end: nat): nat -> Read {
    (pos: nat) => if end <= |d| then AtomsAt(s, path, d, pos, end) else Failure(EndOfFile)
  }

  lemma ReaderFinds(s: Schema, path: seq<Bytes>, d: Bytes, pos: nat, end: nat, n: Node)
    requires pos + 8 <= end <= |d| && AtomAt(s, path, d, pos, end) == Success(n)
    ensures Chained(Reader(s, path, d, end), [n], pos)
  {
    PrependNext(s, path, d, pos, end, []);
    PrependNothing(AtomsAt(s, path, d, pos, end));
    assert [] + [n] == [n];
    ChainOne(Reader(s, path, d, end), n, pos);
  }

  lemma {:induction false} EndOfAll(as_: seq<Atom>, pos: nat)
    ensures EndOf(LocatedAll(as_, pos), pos) == pos + |EncodeAll(as_)|
    decreases |as_|
  {
    if as_ != [] {
      EncodeAllCons(as_);
      EndOfAll(as_[1..], pos + |Encode(as_[0])|);
    }
  }

  lemma {:induction false} ChainAtom(s: Schema, path: seq<Bytes>, a: Atom, d: Bytes, pos: nat, end: nat, ns: seq<Node>)
    requires Conforms(s, path, a) && At(d, pos, Encode(a)) && |d| < TWO64 && pos + |Encode(a)| <= end <= |d|
    requires Chained(Reader(s, path, d, end), ns, pos + |Encode(a)|)
    ensures Chained(Reader(s, path, d, end), [Located(a, pos)] + ns, pos)
  {
    AtomRead(s, path, a, d, pos, end);
    ReaderFinds(s, path, d, pos, end, Located(a, pos));
    ChainJoin(Reader(s, path, d, end), [Located(a, pos)], ns, pos);
  }

  lemma {:induction false} ReaderFindsAll(s: Schema, path: seq<Bytes>, as_: seq<Atom>, d: Bytes, pos: nat, end: nat)
    requires AllConform(s, path, as_) && At(d, pos, EncodeAll(as_)) && |d| < TWO64
    requires pos + |EncodeAll(as_)| <= end <= |d|
    ensures Chained(Reader(s, path, d, end), LocatedAll(as_, pos), pos)
    decreases |as_|
  {
    if as_ != [] {
      var next := pos + |Encode(as_[0])|;
      AtCons(d, pos, as_);
      ReaderFindsAll(s, path, as_[1..], d, next, end);
      ChainAtom(s, path, as_[0], d, pos, end, LocatedAll(as_[1..], next));
    }
  }

  // ---- Free atoms and media data ----

  /** An atom whose contents are passed by. */
  function Passed(pos: nat, end: nat, typ: Bytes): Node {
    Node(pos, end, typ, [], [], [])
  }

  lemma {:induction false} PassedBy(s: Schema, path: seq<Bytes>, d: Bytes, pos: nat, end: nat, h: Header)
    requires s.kind(path + [h.typ]) == Known(false, false) && h.ext == []
    requires pos + 8 <= end <= |d| && HeaderAt(d, pos) == Success(h) && pos + h.size <= end && |d| < TWO64
    ensures AtomAt(s, path, d, pos, end) == Success(Passed(pos, pos + h.size, h.typ))
  {
    var inner := path + [h.typ];
    assert d[pos + h.length..pos + h.length] == [];
    assert ChildrenAt(s, inner, d, pos + h.length, pos + h.size) == Success([]);
    assert AtomWith(s, inner, d, pos, h, pos + h.size) == Success(Passed(pos, pos + h.size, h.typ));
  }

  lemma LargeHeader(d: Bytes, pos: nat, size: nat)
    requires At(d, pos, U32(1) + MDAT + U64(size)) && 16 <= size && pos + size <= |d| < TWO64
    ensures HeaderAt(d, pos) == Success(Header(MDAT, [], size, 16))
  {
    HeadParts(d, pos, U32(1), MDAT, U64(size));
    assert Number(d[pos..pos + 4]) == 1 && Number(d[pos + 8..pos + 16]) == size;
  }

  /** Either header of the media data is read as such. */
  lemma MdatFound(d: Bytes, pos: nat, n: nat)
    requires At(d, pos, MdatHeader(n)) && |d| == pos + |MdatHeader(n)| + n < TWO64
    ensures HeaderAt(d, pos) == Success(Header(MDAT, [], |MdatHeader(n)| + n, |MdatHeader(n)|))
  {
    if n + 8 <= MAX32 {
      AtPart(d, pos, U32(n + 8), MDAT);
      HeaderFound(d, pos, n + 8, MDAT, []);
    } else {
      LargeHeader(d, pos, n + 16);
    }
  }

  lemma MdatReads(s: Schema, d: Bytes, pos: nat, n: nat)
    requires s.kind([MDAT]) == Known(false, false) && At(d, pos, MdatHeader(n))
    requires |d| == pos + |MdatHeader(n)| + n < TWO64
    ensures Chained(Reader(s, [], d, |d|), [Passed(pos, |d|, MDAT)], pos)
  {
    assert [] + [MDAT] == [MDAT];
    MdatFound(d, pos, n);
    PassedBy(s, [], d, pos, |d|, Header(MDAT, [], |MdatHeader(n)| + n, |MdatHeader(n)|));
    ReaderFinds(s, [], d, pos, |d|, Passed(pos, |d|, MDAT));
  }

  lemma {:induction false} FreeReads(s: Schema, d: Bytes, pos: nat, gap: nat)
    requires s.kind([FREE]) == Known(false, false) && At(d, pos, FreeHeader(gap))
    requires 8 <= gap <= MAX32 && pos + gap <= |d| < TWO64
    ensures Chained(Reader(s, [], d, |d|), [Passed(pos, pos + gap, FREE)], pos)
  {
    assert [] + [FREE] == [FREE];
    AtPart(d, pos, U32(gap), FREE);
    HeaderFound(d, pos, gap, FREE, []);
    PassedBy(s, [], d, pos, |d|, Header(FREE, [], gap, 8));
    ReaderFinds(s, [], d, pos, |d|, Passed(pos, pos + gap, FREE));
  }

  // ---- The finished file ----

  /** The atoms of a finished file: the first ones and the index, user data, a
      free atom and the media data. */
  ghost function Layout(first: seq<Atom>, moov: Atom, udtas: seq<Atom>, gap: nat, end: nat): seq<Node> {
    var k := |EncodeAll(first)| + |Encode(moov)|;
    LocatedAll(first + [moov], 0) + LocatedAll(udtas, k) + Rest(k + |EncodeAll(udtas)|, gap, end)
  }

  function Rest(k: nat, gap: nat, end: nat): seq<Node> {
    [Passed(k, k + gap, FREE)] + [Passed(k + gap, end, MDAT)]
  }

  /** The finished file is tiled by the first atoms, the relocated index, the
      user data behind it, one free atom and the media data: that is what it
      reads as. */
  lemma FinishedReads(s: Schema, first: seq<Atom>, moov: Atom, udtas: seq<Atom>, d: Bytes, gap: nat, junk: Bytes, payload: Bytes,
                      steps: nat)
    requires Finished(d, EncodeAll(first), Encode(moov) + EncodeAll(udtas), gap, junk, payload) && gap <= MAX32 && |d| < TWO64
    requires AllConform(s, [], first + [moov]) && AllConform(s, [], udtas)
    requires s.kind([FREE]) == Known(false, false) && s.kind([MDAT]) == Known(false, false)
    requires steps >= |d|
    ensures AtomsIn(s, [], d, 0, |d|, steps) == Success(Layout(first, moov, udtas, gap, |d|))
    ensures d[|d| - |payload|..] == payload
  {
    FinishedParts(d, EncodeAll(first), Encode(moov) + EncodeAll(udtas), gap, junk, payload);
    SplitIndex(d, EncodeAll(first), Encode(moov), EncodeAll(udtas));
    var k := |EncodeAll(first)| + |Encode(moov)|;
    FinishedChain(s, first, moov, udtas, d, k, k + |EncodeAll(udtas)|, gap, |payload|);
    ReadsToEnd(s, d, Layout(first, moov, udtas, gap, |d|));
    StraightAhead(s, [], d, 0, |d|, steps);
  }

  ghost predicate StandsAt(ns: seq<Node>, i: nat, part: seq<Node>) {
    i + |part| <= |ns| && ns[i..i + |part|] == part
  }

  /** The finished file holds the user data exactly when the index has changed
      its size, or there is none: behind an index of the same size the free
      atom takes its place. */
  lemma UserDataKeptIff(s: Schema, first: seq<Atom>, moov: Atom, udtas: seq<Atom>, moovSize: nat,
                        d: Bytes, gap: nat, junk: Bytes, payload: Bytes, steps: nat)
    requires var moved := if |Encode(moov)| != moovSize then udtas else [];
             Finished(d, EncodeAll(first), Encode(moov) + EncodeAll(moved), gap, junk, payload)
    requires gap <= MAX32 && |d| < TWO64 && steps >= |d| && AllConform(s, [], first + [moov]) && AllConform(s, [], udtas)
    requires s.kind([FREE]) == Known(false, false) && s.kind([MDAT]) == Known(false, false)
    requires forall u :: u in udtas ==> u.Box? && u.typ == UDTA
    ensures var r := AtomsIn(s, [], d, 0, |d|, steps);
            && r.Success?
            && (StandsAt(r.value, |first| + 1, LocatedAll(udtas, |EncodeAll(first)| + |Encode(moov)|))
                <==> |Encode(moov)| != moovSize || udtas == [])
  {
    var moved := if |Encode(moov)| != moovSize then udtas else [];
    FinishedReads(s, first, moov, moved, d, gap, junk, payload, steps);
    BehindTheIndex(first, moov, udtas, moved, gap, |d|);
  }

  /** A movie of an empty index, an empty atom of user data and media data. */
  const INDEX := Box(MOOV, [], [], [])
  const USER_DATA := Box(UDTA, [], [], [])
  const MEDIA := Box(MDAT, [], [], [])

  /** Writing this movie and finishing it, though no chunk has moved, loses the
      user data: what is read is the index, a free atom and the media data. */
  method LoseUserData(ghost s: Schema) returns (f: File)
    requires s.kind([MOOV]) == s.kind([FREE]) == s.kind([MDAT]) == Known(false, false)
    ensures var r := AtomsIn(s, [], f.data, 0, |f.data|, |f.data|);
            r.Success? && |r.value| == 3 && r.value[0].typ == MOOV && r.value[1].typ == FREE && r.value[2].typ == MDAT
  {
    f := new File([]);
    var root := new RootAtom(f, [INDEX, USER_DATA, MEDIA]);
    MovieParts(root.children);
    var ok := root.BeginOptimalWrite();
    ghost var gap, junk;
    ok, gap, junk := root.FinishOptimalWrite();
    SmallFile(f.data, gap, junk);
    EmptyIndexReads(s, f.data, gap, junk);
  }

  lemma MovieParts(as_: seq<Atom>)
    requires as_ == [INDEX, USER_DATA, MEDIA]
    ensures Matching(as_, MOOV) == [INDEX] && Matching(as_, UDTA) == [USER_DATA] && Matching(as_, MDAT) == [MEDIA]
    ensures Picked(as_, FTYP, true) == [] && AllFormed(as_)
    ensures Writable(INDEX) && AllWritable([USER_DATA]) && RoomFor(INDEX, [USER_DATA]) && |Encode(INDEX)| == 8
  {
    MovieMatching(as_, MOOV);
    MovieMatching(as_, UDTA);
    MovieMatching(as_, MDAT);
    MovieMatching(as_, FTYP);
    TypesDiffer();
    MovieFormed(as_);
    OneAtom(USER_DATA);
    EmptyBox(INDEX);
    EmptyBox(USER_DATA);
    assert TablesOf([]) == [];
  }

  lemma TypesDiffer()
    ensures MOOV != UDTA && MOOV != MDAT && MOOV != FTYP && MOOV != UUID
    ensures UDTA != MDAT && UDTA != FTYP && UDTA != UUID && MDAT != FTYP && MDAT != UUID
  {
    assert MOOV[0] != UDTA[0] && MOOV[1] != MDAT[1] && MOOV[0] != FTYP[0] && MOOV[0] != UUID[0];
    assert UDTA[0] != MDAT[0] && UDTA[0] != FTYP[0] && UDTA[1] != UUID[1] && MDAT[0] != FTYP[0] && MDAT[0] != UUID[0];
  }

  lemma MovieMatching(as_: seq<Atom>, typ: Bytes)
    requires as_ == [INDEX, USER_DATA, MEDIA]
    ensures Matching(as_, typ) == (if typ == MOOV then [INDEX] else []) + (if typ == UDTA then [USER_DATA] else [])
                                  + if typ == MDAT then [MEDIA] else []
  {
    MatchingNext(as_, typ, 0);
    MatchingNext(as_, typ, 1);
    MatchingNext(as_, typ, 2);
    assert as_[..0] == [] && as_[..3] == as_;
  }

  lemma MovieFormed(as_: seq<Atom>)
    requires as_ == [INDEX, USER_DATA, MEDIA]
    ensures AllFormed(as_)
  {
    TypesDiffer();
    var two := as_[..2];
    assert two == [INDEX, USER_DATA] && two[..1] == [INDEX];
    assert Formed(INDEX) && Formed(USER_DATA) && Formed(MEDIA);
    assert AllFormed([INDEX]) && AllFormed(two);
  }

  lemma EmptyBox(a: Atom)
    requires a.Box? && |a.typ| == 4 && a.ext == [] && a.props == [] && a.children == [] && a.typ != MDAT
    ensures |Encode(a)| == 8 && Writable(a)
  {
    assert Plain(a) == a && EncodeAll(a.children) == [];
    assert |Head(a)| == 4 && |Body(a)| == 4;
  }

  lemma SmallFile(d: Bytes, gap: nat, junk: Bytes)
    requires Finished(d, [], Encode(INDEX) + [], gap, junk, []) && gap <= MAX32
    ensures |d| < TWO64
  {}

  lemma EmptyIndexReads(s: Schema, d: Bytes, gap: nat, junk: Bytes)
    requires Finished(d, [], Encode(INDEX) + [], gap, junk, []) && gap <= MAX32 && |d| < TWO64
    requires s.kind([MOOV]) == s.kind([FREE]) == s.kind([MDAT]) == Known(false, false)
    ensures var r := AtomsIn(s, [], d, 0, |d|, |d|);
            r.Success? && |r.value| == 3 && r.value[0].typ == MOOV && r.value[1].typ == FREE && r.value[2].typ == MDAT
  {
    assert [] + [INDEX] == [INDEX];
    TypesDiffer();
    EmptyBox(INDEX);
    assert [] + [MOOV] == [MOOV];
    assert Conforms(s, [], INDEX);
    FinishedReads(s, [], INDEX, [], d, gap, junk, [], |d|);
    LocatedCount([INDEX], 0);
    LocatedPlain(INDEX, 0);
    LocatedCons([INDEX], 0);
  }

  lemma BehindTheIndex(first: seq<Atom>, moov: Atom, udtas: seq<Atom>, moved: seq<Atom>, gap: nat, end: nat)
    requires (moved == udtas || moved == []) && forall u :: u in udtas ==> u.Box? && u.typ == UDTA
    ensures StandsAt(Layout(first, moov, moved, gap, end), |first| + 1, LocatedAll(udtas, |EncodeAll(first)| + |Encode(moov)|))
            <==> moved == udtas
  {
    var k := |EncodeAll(first)| + |Encode(moov)|;
    LocatedCount(first + [moov], 0);
    if moved == udtas {
      StandsBehind(LocatedAll(first + [moov], 0), LocatedAll(udtas, k), Rest(k + |EncodeAll(udtas)|, gap, end));
    } else {
      FirstIsUserData(udtas, k);
      FreeBehind(LocatedAll(first + [moov], 0), LocatedAll(udtas, k), Rest(k, gap, end));
    }
  }

  lemma StandsBehind(ns: seq<Node>, part: seq<Node>, rest: seq<Node>)
    ensures StandsAt(ns + part + rest, |ns|, part)
  {}

  lemma FreeBehind(ns: seq<Node>, part: seq<Node>, rest: seq<Node>)
    requires part != [] && rest != [] && part[0] != rest[0]
    ensures !StandsAt(ns + [] + rest, |ns|, part)
  {
    var all := ns + [] + rest;
    if |ns| + |part| <= |all| {
      assert all[|ns|..|ns| + |part|][0] == rest[0];
    }
  }

  lemma FirstIsUserData(udtas: seq<Atom>, pos: nat)
    requires udtas != [] && udtas[0].Box? && udtas[0].typ == UDTA
    ensures LocatedAll(udtas, pos) != [] && LocatedAll(udtas, pos)[0].typ == UDTA
  {
    LocatedCons(udtas, pos);
    LocatedPlain(udtas[0], pos);
  }

  lemma {:induction false} LocatedCount(as_: seq<Atom>, pos: nat)
    ensures |LocatedAll(as_, pos)| == |as_|
    decreases |as_|
  {
    if as_ != [] { LocatedCount(as_[1..], pos + |Encode(as_[0])|); }
  }

  /** The reader finds these atoms from one place up to another. */
  ghost predicate Reads(s: Schema, d: Bytes, ns: seq<Node>, from: nat, to: nat) {
    Chained(Reader(s, [], d, |d|), ns, from) && EndOf(ns, from) == to
  }

  lemma ReadsToEnd(s: Schema, d: Bytes, ns: seq<Node>)
    requires Reads(s, d, ns, 0, |d|)
    ensures AtomsAt(s, [], d, 0, |d|) == Success(ns)
  {
    ChainRead(Reader(s, [], d, |d|), ns, 0);
    assert AtomsAt(s, [], d, |d|, |d|) == Success([]);
    assert ns + [] == ns;
  }

  lemma ReadsOn(s: Schema, d: Bytes, a: seq<Node>, b: seq<Node>, from: nat, mid: nat, to: nat)
    requires Reads(s, d, a, from, mid) && Reads(s, d, b, mid, to)
    ensures Reads(s, d, a + b, from, to)
  {
    ChainJoin(Reader(s, [], d, |d|), a, b, from);
    assert b == [] ==> a + b == a;
  }

  lemma ReadsThree(s: Schema, d: Bytes, a: seq<Node>, b: seq<Node>, c: seq<Node>, k: nat, m: nat, ns: seq<Node>)
    requires Reads(s, d, a, 0, k) && Reads(s, d, b, k, m) && Reads(s, d, c, m, |d|) && ns == a + b + c
    ensures Reads(s, d, ns, 0, |d|)
  {
    ReadsOn(s, d, a, b, 0, k, m);
    ReadsOn(s, d, a + b, c, 0, m, |d|);
  }

  lemma LayoutParts(first: seq<Atom>, moov: Atom, udtas: seq<Atom>, gap: nat, end: nat, k: nat, m: nat)
    requires k == |EncodeAll(first)| + |Encode(moov)| && m == k + |EncodeAll(udtas)|
    ensures Layout(first, moov, udtas, gap, end) == LocatedAll(first + [moov], 0) + LocatedAll(udtas, k) + Rest(m, gap, end)
  {}

  lemma FinishedChain(s: Schema, first: seq<Atom>, moov: Atom, udtas: seq<Atom>, d: Bytes, k: nat, m: nat, gap: nat, n: nat)
    requires AllConform(s, [], first + [moov]) && AllConform(s, [], udtas)
    requires s.kind([FREE]) == Known(false, false) && s.kind([MDAT]) == Known(false, false) && 8 <= gap <= MAX32
    requires k == |EncodeAll(first)| + |Encode(moov)| && m == k + |EncodeAll(udtas)|
    requires At(d, 0, EncodeAll(first) + Encode(moov)) && At(d, k, EncodeAll(udtas))
    requires At(d, m, FreeHeader(gap)) && At(d, m + gap, MdatHeader(n)) && |d| == m + gap + |MdatHeader(n)| + n < TWO64
    ensures Reads(s, d, Layout(first, moov, udtas, gap, |d|), 0, |d|)
  {
    FrontChain(s, first, moov, d, k);
    MiddleChain(s, udtas, d, k, m);
    RestChain(s, d, m, gap, n);
    LayoutParts(first, moov, udtas, gap, |d|, k, m);
    ReadsThree(s, d, LocatedAll(first + [moov], 0), LocatedAll(udtas, k), Rest(m, gap, |d|), k, m,
               Layout(first, moov, udtas, gap, |d|));
  }

  lemma FrontChain(s: Schema, first: seq<Atom>, moov: Atom, d: Bytes, k: nat)
    requires AllConform(s, [], first + [moov]) && At(d, 0, EncodeAll(first) + Encode(moov)) && |d| < TWO64
    requires k == |EncodeAll(first)| + |Encode(moov)|
    ensures Reads(s, d, LocatedAll(first + [moov], 0), 0, k)
  {
    EncodeSnoc(first, moov);
    ReaderFindsAll(s, [], first + [moov], d, 0, |d|);
    EndOfAll(first + [moov], 0);
  }

  lemma MiddleChain(s: Schema, udtas: seq<Atom>, d: Bytes, k: nat, m: nat)
    requires AllConform(s, [], udtas) && At(d, k, EncodeAll(udtas)) && |d| < TWO64 && m == k + |EncodeAll(udtas)|
    ensures Reads(s, d, LocatedAll(udtas, k), k, m)
  {
    ReaderFindsAll(s, [], udtas, d, k, |d|);
    EndOfAll(udtas, k);
  }

  lemma RestChain(s: Schema, d: Bytes, k: nat, gap: nat, n: nat)
    requires s.kind([FREE]) == Known(false, false) && s.kind([MDAT]) == Known(false, false) && 8 <= gap <= MAX32
    requires At(d, k, FreeHeader(gap)) && At(d, k + gap, MdatHeader(n)) && |d| == k + gap + |MdatHeader(n)| + n < TWO64
    ensures Reads(s, d, Rest(k, gap, |d|), k, |d|)
  {
    FreeReads(s, d, k, gap);
    MdatReads(s, d, k + gap, n);
    ReadsOn(s, d, [Passed(k, k + gap, FREE)], [Passed(k + gap, |d|, MDAT)], k, k + gap, |d|);
  }

  lemma FinishedParts(d: Bytes, head: Bytes, index: Bytes, gap: nat, junk: Bytes, payload: Bytes)
    requires Finished(d, head, index, gap, junk, payload)
    ensures At(d, 0, head + index) && At(d, |head| + |index|, FreeHeader(gap))
    ensures At(d, |head| + |index| + gap, MdatHeader(|payload|))
    ensures |d| == |head| + |index| + gap + |MdatHeader(|payload|)| + |payload| && d[|d| - |payload|..] == payload
  {
    var within := index + FreeHeader(gap) + junk;
    assert |within| == |index| + gap;
    FourParts(d, head, within, MdatHeader(|payload|), payload);
    IndexParts(d, |head|, index, gap, junk);
    AtJoin(d, 0, head, index);
  }

  lemma SplitIndex(d: Bytes, head: Bytes, moov: Bytes, udtas: Bytes)
    requires At(d, 0, head + (moov + udtas))
    ensures At(d, 0, head + moov) && At(d, |head| + |moov|, udtas)
  {
    Concatenate(head, moov, udtas);
    AtPart(d, 0, head + moov, udtas);
  }

  lemma FourParts(d: Bytes, a: Bytes, b: Bytes, c: Bytes, e: Bytes)
    requires d == a + b + c + e
    ensures At(d, 0, a) && At(d, |a|, b) && At(d, |a| + |b|, c) && d[|a| + |b| + |c|..] == e
  {
    assert At(d, 0, d);
    AtPart(d, 0, a + b + c, e);
    AtPart(d, 0, a + b, c);
    AtPart(d, 0, a, b);
  }

  lemma IndexParts(d: Bytes, pos: nat, index: Bytes, gap: nat, junk: Bytes)
    requires At(d, pos, index + FreeHeader(gap) + junk)
    ensures At(d, pos, index) && At(d, pos + |index|, FreeHeader(gap))
  {
    AtPart(d, pos, index + FreeHeader(gap), junk);
    AtPart(d, pos, index, FreeHeader(gap));
  }
}
