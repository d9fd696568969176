/** Writing a movie with its index first: space is reserved so that the index
    can be rewritten once the media data is in place
    (mp4v2/src/atom_root.cpp, and the media data's header in
    mp4v2/src/mp4atom.cpp). */
module OptimalLayout {
  import opened Wrappers
  import opened ByteFile
  import opened Atoms

  const FTYP: Bytes := [0x66, 0x74, 0x79, 0x70]
  const MOOV: Bytes := [0x6D, 0x6F, 0x6F, 0x76]

  // ---- How much an index can grow ----

  /** The chunk offset tables of a tree, one for each track. */
  function Tables(a: Atom): seq<Atom>
    decreases a, 1
  {
    match a
    case Box(_, _, _, children) => TablesOf(children)
    case ChunkOffsets(_, _) => [a]
  }

  function TablesOf(as_: seq<Atom>): seq<Atom>
    decreases as_
  {
    if as_ == [] then [] else TablesOf(as_[..|as_| - 1]) + Tables(as_[|as_| - 1])
  }

  /** Entries of the tables that take 32 bits now. */
  ghost function NarrowEntries(tables: seq<Atom>): nat {
    if tables == [] then 0
    else
      var last := tables[|tables| - 1];
      NarrowEntries(tables[..|tables| - 1]) + if last.ChunkOffsets? && !Wide(last.offsets) then |last.offsets| else 0
  }

  lemma ShapeOfItself(a: Atom)
    ensures SameShape(a, a)
    decreases a, 1
  {
    if a.Box? { SameAsItself(a.children); }
  }

  lemma {:induction false} SameAsItself(as_: seq<Atom>)
    ensures SameShapes(as_, as_)
    decreases as_
  {
    if as_ != [] {
      SameAsItself(as_[..|as_| - 1]);
      ShapeOfItself(as_[|as_| - 1]);
    }
  }

  lemma {:induction false} NarrowConcat(a: seq<Atom>, b: seq<Atom>)
    ensures NarrowEntries(a + b) == NarrowEntries(a) + NarrowEntries(b)
  {
    if b == [] {
      assert a + b == a;
    } else {
      var m := |b| - 1;
      assert (a + b)[..|a| + m] == a + b[..m];
      NarrowConcat(a, b[..m]);
    }
  }

  /** Two trees that differ in chunk offsets only. */
  ghost predicate SameShape(a: Atom, b: Atom)
    decreases a, 1
  {
    match a
    case Box(typ, ext, props, children) =>
      b.Box? && b.typ == typ && b.ext == ext && b.props == props && SameShapes(children, b.children)
    case ChunkOffsets(flags, offsets) => b.ChunkOffsets? && b.flags == flags && |b.offsets| == |offsets|
  }

  ghost predicate SameShapes(as_: seq<Atom>, bs: seq<Atom>)
    decreases as_
  {
    && |as_| == |bs|
    && (as_ != [] ==> SameShapes(as_[..|as_| - 1], bs[..|bs| - 1]) && SameShape(as_[|as_| - 1], bs[|bs| - 1]))
  }

  /** Relocating chunks grows a tree by at most four bytes for each entry that
      took 32 bits before. */
  lemma GrowthBound(a: Atom, b: Atom)
    requires SameShape(a, b)
    ensures |Encode(b)| <= |Encode(a)| + 4 * NarrowEntries(Tables(a))
    decreases a, 1
  {
    if a.Box? {
      GrowthBoundAll(a.children, b.children);
    } else {
      assert [a][..0] == [];
      assert NarrowEntries([a]) == if Wide(a.offsets) then 0 else |a.offsets|;
    }
  }

  lemma {:induction false} GrowthBoundAll(as_: seq<Atom>, bs: seq<Atom>)
    requires SameShapes(as_, bs)
    ensures |EncodeAll(bs)| <= |EncodeAll(as_)| + 4 * NarrowEntries(TablesOf(as_))
    decreases as_
  {
    if as_ != [] {
      var m := |as_| - 1;
      GrowthBoundAll(as_[..m], bs[..m]);
      GrowthBound(as_[m], bs[m]);
      NarrowConcat(TablesOf(as_[..m]), Tables(as_[m]));
    }
  }

  // ---- The children of the file ----

  const UDTA: Bytes := [0x75, 0x64, 0x74, 0x61]

  /** The atoms of a type, in their order. */
  function Matching(children: seq<Atom>, typ: Bytes): seq<Atom> {
    if children == [] then []
    else
      var last := children[|children| - 1];
      Matching(children[..|children| - 1], typ) + if last.Box? && last.typ == typ then [last] else []
  }

  /** The atoms of a type that are written: all of them, or just the first. */
  function Picked(children: seq<Atom>, typ: Bytes, onlyOne: bool): (r: seq<Atom>) {
    var ms := Matching(children, typ);
    if onlyOne && ms != [] then ms[..1] else ms
  }

  lemma MatchingNext(children: seq<Atom>, typ: Bytes, i: nat)
    requires i < |children|
    ensures Matching(children[..i + 1], typ)
         == Matching(children[..i], typ) + if children[i].Box? && children[i].typ == typ then [children[i]] else []
  {
    assert children[..i + 1][..i] == children[..i];
  }

  lemma {:induction false} MatchingPrefix(children: seq<Atom>, typ: Bytes, i: nat)
    requires i <= |children|
    ensures Matching(children[..i], typ) <= Matching(children, typ)
    decreases |children|
  {
    if i == |children| {
      assert children[..i] == children;
    } else {
      var m := |children| - 1;
      MatchingPrefix(children[..m], typ, i);
      assert children[..m][..i] == children[..i];
    }
  }

  lemma FirstMatch(children: seq<Atom>, typ: Bytes, i: nat)
    requires i < |children| && children[i].Box? && children[i].typ == typ && Matching(children[..i], typ) == []
    ensures Picked(children, typ, true) == [children[i]]
  {
    MatchingNext(children, typ, i);
    MatchingPrefix(children, typ, i + 1);
  }

  lemma {:induction false} MatchingIs(children: seq<Atom>, typ: Bytes)
    ensures forall a :: a in Matching(children, typ) <==> a in children && a.Box? && a.typ == typ
  {
    if children != [] {
      var m := |children| - 1;
      MatchingIs(children[..m], typ);
      assert children == children[..m] + [children[m]];
    }
  }

  lemma {:induction false} NoneMatch(children: seq<Atom>, typ: Bytes)
    requires forall j :: 0 <= j < |children| ==> !(children[j].Box? && children[j].typ == typ)
    ensures Matching(children, typ) == []
  {
    if children != [] { NoneMatch(children[..|children| - 1], typ); }
  }

  /** The one atom picked is the first of its type. */
  lemma PickedIsFirst(children: seq<Atom>, typ: Bytes, i: nat)
    requires i < |children| && children[i].Box? && children[i].typ == typ
    requires forall j :: 0 <= j < i ==> !(children[j].Box? && children[j].typ == typ)
    ensures Picked(children, typ, true) == [children[i]]
  {
    NoneMatch(children[..i], typ);
    FirstMatch(children, typ, i);
  }

  lemma OneAtom(a: Atom)
    ensures EncodeAll([a]) == Encode(a) && (AllWritable([a]) <==> Writable(a))
  {
    assert [a][..0] == [];
  }

  /** The two headers media data can have, by its length. */
  function MdatHeader(n: nat): (h: Bytes)
    ensures |h| == if n + 8 <= MAX32 then 8 else 16
  {
    if n + 8 <= MAX32 then U32(n + 8) + MDAT else U32(1) + MDAT + U64(n + 16)
  }

  function FreeHeader(size: nat): (h: Bytes)
    ensures |h| == 8
  {
    U32(size) + FREE
  }

  /** Sixteen bytes for the header of the media data: a free atom of eight
      bytes, and a header without a size. */
  function MdatSpace(): (h: Bytes)
    ensures |h| == 16
  {
    FreeHeader(8) + (U32(0) + MDAT)
  }

  /** What is reserved: the room, and the header of the media data. */
  function Reserved(room: nat): (bs: Bytes)
    ensures |bs| == room + 24
  {
    FreeHeader(room + 8) + Zeros(room) + MdatSpace()
  }

  lemma Patch(a: Bytes, old_: Bytes, new_: Bytes, b: Bytes)
    requires |old_| == |new_|
    ensures Put(a + old_ + b, |a|, new_) == a + new_ + b
  {
    if new_ != [] {
      var d := a + old_ + b;
      assert d[..|a|] == a && d[|a| + |new_|..] == b;
    }
  }

  lemma Append(d: Bytes, bs: Bytes)
    ensures Put(d, |d|, bs) == d + bs
  {}

  lemma AppendAfterGap(d: Bytes, n: nat, bs: Bytes)
    requires bs != []
    ensures Put(d, |d| + n, bs) == d + Zeros(n) + bs
  {
    assert n == 0 ==> d + Zeros(n) == d;
  }

  // ---- Writing ----

  /** The file while chunks are being copied into it. */
  ghost predicate Begun(d: Bytes, pos: nat, head: Bytes, index: Bytes, room: nat, payload: Bytes) {
    d == head + (index + Reserved(room)) + payload && pos == |d|
  }

  /** The finished file: what comes first, the index, the rest of the reserved
      space as one free atom of `gap` bytes, and the media data. */
  ghost predicate Finished(d: Bytes, head: Bytes, index: Bytes, gap: nat, junk: Bytes, payload: Bytes) {
    gap == 8 + |junk| && d == head + (index + FreeHeader(gap) + junk) + MdatHeader(|payload|) + payload
  }

  /** The data stands at the end of the file, behind a header that gives its
      size in four bytes or, if that is too little, in eight. */
  ghost predicate DataStands(d: Bytes, data: Bytes) {
    var p := |d| - |data|;
    && p >= 16 && d[p..] == data
    && if |data| + 8 <= 0xFFFF_FFFF
       then Number(d[p - 8..p - 4]) == |data| + 8 && d[p - 4..p] == [0x6D, 0x64, 0x61, 0x74]
       else d[p - 16..p - 8] == [0, 0, 0, 1, 0x6D, 0x64, 0x61, 0x74] && (|data| + 16 < TWO64 ==> Number(d[p - 8..p]) == |data| + 16)
  }

  lemma HeaderStands(front: Bytes, data: Bytes)
    requires |front| >= 8
    ensures DataStands(front + MdatHeader(|data|) + data, data)
  {
    if |data| + 8 <= MAX32 {
      NarrowStands(front, U32(|data| + 8), data);
    } else {
      WideStands(front, U64(|data| + 16), data);
    }
  }

  lemma NarrowStands(front: Bytes, size: Bytes, data: Bytes)
    requires |front| >= 8 && |size| == 4 && Number(size) == |data| + 8 <= MAX32
    ensures DataStands(front + (size + MDAT) + data, data)
  {
    TwoStand(front, size, MDAT, data);
  }

  lemma WideStands(front: Bytes, size: Bytes, data: Bytes)
    requires |size| == 8 && |data| + 8 > MAX32 && (|data| + 16 < TWO64 ==> Number(size) == |data| + 16)
    ensures DataStands(front + (U32(1) + MDAT + size) + data, data)
  {
    TwoStand(front, U32(1) + MDAT, size, data);
    SmallOne();
  }

  /** The last parts of a file, counted from its end. */
  lemma TwoStand(front: Bytes, a: Bytes, b: Bytes, data: Bytes)
    ensures var d := front + (a + b) + data;
            var p := |d| - |data|;
            p == |front| + |a| + |b| && d[p..] == data && d[p - |b|..p] == b && d[p - |b| - |a|..p - |b|] == a
  {}

  lemma SmallOne()
    ensures U32(1) + MDAT == [0, 0, 0, 1, 0x6D, 0x64, 0x61, 0x74]
  {}

  lemma FinishedStands(d: Bytes, head: Bytes, index: Bytes, gap: nat, junk: Bytes, payload: Bytes)
    requires Finished(d, head, index, gap, junk, payload)
    ensures DataStands(d, payload)
    ensures d[..|head|] == head && |head| + |index| + 8 <= |d| && d[|head|..|head| + |index|] == index
  {
    HeaderStands(head + (index + FreeHeader(gap) + junk), payload);
    var rest := MdatHeader(|payload|) + payload;
    assert d == head + (index + (FreeHeader(gap) + junk + rest)) by { Regroup4(head, index, FreeHeader(gap), junk, MdatHeader(|payload|), payload); }
  }

  lemma Regroup4(a: Bytes, b: Bytes, c: Bytes, d: Bytes, e: Bytes, f: Bytes)
    ensures a + (b + c + d) + e + f == a + (b + (c + d + (e + f)))
  {}

  /** What stands between the head and the header of the media data. */
  function Middle(index: Bytes, room: nat, narrow: bool): (bs: Bytes)
    ensures |bs| == |index| + room + if narrow then 16 else 8
  {
    if narrow then index + FreeHeader(room + 8) + Zeros(room) + FreeHeader(8) else index + FreeHeader(room + 8) + Zeros(room)
  }

  /** The file's bytes with the media data's header set apart. */
  lemma Narrow(head: Bytes, index: Bytes, room: nat, payload: Bytes, size: nat)
    requires size == |payload| + 8 <= MAX32
    ensures Put(head + (index + Reserved(room)) + payload, |head| + |index| + room + 16, U32(size))
         == head + Middle(index, room, true) + MdatHeader(|payload|) + payload
  {
    SplitNarrow(head, index, FreeHeader(room + 8), Zeros(room), FreeHeader(8), U32(0), MDAT, payload);
    PatchSize(head + Middle(index, room, true), payload, size);
  }

  lemma PatchSize(front: Bytes, payload: Bytes, size: nat)
    requires size == |payload| + 8 <= MAX32
    ensures Put(front + U32(0) + (MDAT + payload), |front|, U32(size)) == front + MdatHeader(|payload|) + payload
  {
    Patch(front, U32(0), U32(size), MDAT + payload);
    Concatenate(front + U32(size), MDAT, payload);
    Concatenate(front, U32(size), MDAT);
  }

  lemma SplitNarrow(a: Bytes, b: Bytes, c: Bytes, d: Bytes, e: Bytes, f: Bytes, g: Bytes, h: Bytes)
    ensures a + (b + (c + d + (e + (f + g)))) + h == a + (b + c + d + e) + f + (g + h)
  {}

  lemma WidenHeader(head: Bytes, index: Bytes, room: nat, payload: Bytes, size: nat)
    requires size == |payload| + 8 > MAX32
    ensures Put(head + (index + Reserved(room)) + payload, |head| + |index| + room + 8, U32(1) + MDAT + U64(size + 8))
         == head + Middle(index, room, false) + MdatHeader(|payload|) + payload
  {
    SplitWide(head, index, FreeHeader(room + 8), Zeros(room), MdatSpace(), payload);
    PatchLarge(head + Middle(index, room, false), payload, size);
  }

  lemma PatchLarge(front: Bytes, payload: Bytes, size: nat)
    requires size == |payload| + 8 > MAX32
    ensures Put(front + MdatSpace() + payload, |front|, U32(1) + MDAT + U64(size + 8)) == front + MdatHeader(|payload|) + payload
  {
    Patch(front, MdatSpace(), U32(1) + MDAT + U64(size + 8), payload);
  }

  lemma SplitWide(a: Bytes, b: Bytes, c: Bytes, d: Bytes, e: Bytes, f: Bytes)
    ensures a + (b + (c + d + e)) + f == a + (b + c + d) + e + f
  {}

  lemma Replaced(head: Bytes, new_: Bytes, middle: Bytes, rest: Bytes)
    requires |new_| <= |middle|
    ensures Put(head + middle + rest, |head|, new_) == head + (new_ + middle[|new_|..]) + rest
  {
    var k := |new_|;
    assert head + middle + rest == head + middle[..k] + (middle[k..] + rest);
    Patch(head, middle[..k], new_, middle[k..] + rest);
    assert head + new_ + (middle[k..] + rest) == head + (new_ + middle[k..]) + rest;
  }

  /** The index where more was, the rest of which becomes a free atom. */
  function Shrunk(index: Bytes, middle: Bytes): (bs: Bytes)
    requires |index| + 8 <= |middle|
    ensures |bs| == |middle|
  {
    index + FreeHeader(|middle| - |index|) + middle[|index| + 8..]
  }

  /** Only the bytes before the media data change. */
  lemma Refilled(head: Bytes, index: Bytes, middle: Bytes, rest: Bytes)
    requires |index| + 8 <= |middle|
    ensures Put(Put(head + middle + rest, |head|, index), |head| + |index|, FreeHeader(|middle| - |index|))
         == head + Shrunk(index, middle) + rest
  {
    var free := FreeHeader(|middle| - |index|);
    PutAppend(head + middle + rest, |head|, index, free);
    Replaced(head, index + free, middle, rest);
  }

  /** The rest of the reserved space must be empty or hold a header; here it
      always does. */
  method FillGap(f: File, mdatStart: nat) returns (ok: bool)
    modifies f
    ensures ok <==> old(f.pos) == mdatStart || old(f.pos) + 8 <= mdatStart
    ensures old(f.pos) + 8 <= mdatStart ==> f.data == Put(old(f.data), old(f.pos), FreeHeader(mdatStart - old(f.pos)))
  {
    var pos := f.pos;
    if !(pos == mdatStart || (mdatStart > pos && mdatStart - pos >= 8)) {
      return false;
    }
    if mdatStart > pos {
      WriteFree(f, mdatStart - pos);
    }
    return true;
  }

  method WriteFree(f: File, size: nat)
    modifies f
    ensures f.data == Put(old(f.data), old(f.pos), FreeHeader(size))
  {
    PutAppend(f.data, f.pos, U32(size), FREE);
    f.WriteUInt32(size);
    f.WriteBytes(FREE);
  }

  /** What is left of the reserved space. */
  lemma Remaining(head: Bytes, middle: Bytes, index: Bytes, payload: Bytes) returns (gap: nat, junk: Bytes)
    requires |index| + 8 <= |middle|
    ensures var d := head + Shrunk(index, middle) + (MdatHeader(|payload|) + payload);
            && Finished(d, head, index, gap, junk, payload) && gap <= |middle|
            && |d| == |head| + |middle| + |MdatHeader(|payload|)| + |payload|
  {
    gap, junk := |middle| - |index|, middle[|index| + 8..];
    Concatenate(head + (index + FreeHeader(gap) + junk), MdatHeader(|payload|), payload);
  }

  lemma {:induction false} ShapesMatch(as_: seq<Atom>, bs: seq<Atom>, typ: Bytes)
    requires SameShapes(as_, bs)
    ensures SameShapes(Matching(as_, typ), Matching(bs, typ))
    decreases |as_|
  {
    if as_ != [] {
      var m := |as_| - 1;
      ShapesMatch(as_[..m], bs[..m], typ);
      var fronts, frontt := Matching(as_[..m], typ), Matching(bs[..m], typ);
      assert SameShape(as_[m], bs[m]);
      if as_[m].Box? && as_[m].typ == typ {
        ShapesSnoc(fronts, frontt, as_[m], bs[m]);
      } else {
        assert fronts + [] == fronts && frontt + [] == frontt;
      }
    }
  }

  lemma ShapesSnoc(as_: seq<Atom>, bs: seq<Atom>, a: Atom, b: Atom)
    requires SameShapes(as_, bs) && SameShape(a, b)
    ensures SameShapes(as_ + [a], bs + [b])
  {
    assert (as_ + [a])[..|as_|] == as_ && (bs + [b])[..|bs|] == bs;
  }

  lemma {:induction false} FirstShape(as_: seq<Atom>, bs: seq<Atom>)
    requires SameShapes(as_, bs) && as_ != []
    ensures bs != [] && SameShape(as_[0], bs[0])
    decreases |as_|
  {
    if |as_| > 1 { FirstShape(as_[..|as_| - 1], bs[..|bs| - 1]); }
  }

  /** However chunks were relocated, the index fits the space reserved. */
  lemma IndexFits(origin: seq<Atom>, children: seq<Atom>)
    requires SameShapes(origin, children) && Matching(origin, MOOV) != []
    ensures Matching(children, MOOV) != []
    ensures var old_, new_ := Matching(origin, MOOV)[0], Matching(children, MOOV)[0];
            |Encode(new_)| <= |Encode(old_)| + 4 * NarrowEntries(Tables(old_))
  {
    ShapesMatch(origin, children, MOOV);
    FirstShape(Matching(origin, MOOV), Matching(children, MOOV));
    GrowthBound(Matching(origin, MOOV)[0], Matching(children, MOOV)[0]);
  }

  lemma {:induction false} FormedMatch(as_: seq<Atom>, typ: Bytes)
    requires AllFormed(as_) && Matching(as_, typ) != []
    ensures Formed(Matching(as_, typ)[0])
    decreases |as_|
  {
    var m := |as_| - 1;
    if Matching(as_[..m], typ) != [] {
      FormedMatch(as_[..m], typ);
    }
  }

  /** The index, user data and the space reserved behind them stay below four
      gigabytes. */
  ghost predicate RoomFor(moov: Atom, udtas: seq<Atom>) {
    |Encode(moov)| + |EncodeAll(udtas)| + 1048 + 4 * NarrowEntries(Tables(moov)) <= MAX32
  }

  /** Relocating chunks changes chunk offsets only, and those not in user data. */
  ghost predicate Relocated(origin: seq<Atom>, children: seq<Atom>) {
    AllFormed(children) && SameShapes(origin, children) && Matching(children, UDTA) == Matching(origin, UDTA)
  }

  lemma Assembled(head: Bytes, index: Bytes, room: nat)
    ensures head + index + FreeHeader(room + 8) + Zeros(room) + MdatSpace() == head + (index + Reserved(room)) + []
  {
    Regroup(head, index, FreeHeader(room + 8), Zeros(room), MdatSpace());
  }

  lemma Regroup(a: Bytes, b: Bytes, c: Bytes, d: Bytes, e: Bytes)
    ensures a + b + c + d + e == a + (b + (c + d + e)) + []
  {}

  /** Writes at the end of a file, or behind a gap after it. */
  method WriteAtEnd(f: File, bs: Bytes)
    requires f.pos == |f.data|
    modifies f
    ensures f.data == old(f.data) + bs && f.pos == |f.data|
  {
    Append(f.data, bs);
    f.WriteBytes(bs);
  }

  method WriteBehind(f: File, bs: Bytes, ghost gap: nat)
    requires f.pos == |f.data| + gap && bs != []
    modifies f
    ensures f.data == old(f.data) + Zeros(gap) + bs && f.pos == |f.data|
  {
    AppendAfterGap(f.data, gap, bs);
    f.WriteBytes(bs);
  }

  lemma PutEmpty(bs: Bytes)
    ensures Put([], 0, bs) == bs
  {}

  class RootAtom {
    const f: File
    var children: seq<Atom>
    var moovStart: nat
    var moovSize: nat
    var mdatStart: nat

    /** The children when writing began, what was written first, the index as
        it was then, the room reserved behind it, and the chunks copied since. */
    ghost var origin: seq<Atom>
    ghost var head: Bytes
    ghost var index: Bytes
    ghost var room: nat
    ghost var payload: Bytes

    constructor (f: File, children: seq<Atom>)
      ensures this.f == f && this.children == children
    {
      this.f, this.children, this.moovStart, this.moovSize, this.mdatStart := f, children, 0, 0, 0;
      this.origin, this.head, this.index, this.room, this.payload := children, [], [], 0, [];
    }

    ghost predicate Valid()
      reads this, f
    {
      && Begun(f.data, f.pos, head, index, room, payload)
      && moovStart == |head| && mdatStart == |head| + |index| + room + 16
      && IndexWritten() && Relocated(origin, children)
    }

    /** The index and user data as they were written first. */
    ghost predicate IndexWritten()
      reads this`origin, this`index, this`room, this`moovSize
    {
      && Matching(origin, MOOV) != []
      && var moov, udtas := Matching(origin, MOOV)[0], Matching(origin, UDTA);
      && RoomFor(moov, udtas) && AllWritable(udtas) && moovSize == |Encode(moov)|
      && index == Encode(moov) + EncodeAll(udtas) && room == 1024 + 4 * NarrowEntries(Tables(moov))
    }

    ghost function Moov(): Atom
      requires Matching(children, MOOV) != []
      reads this`children
    {
      Matching(children, MOOV)[0]
    }

    /** Writes the children of a type. */
    method WriteAtomType(typ: Bytes, onlyOne: bool) returns (ok: bool)
      requires AllFormed(children)
      modifies f
      ensures ok <==> AllWritable(Picked(children, typ, onlyOne))
      ensures ok ==> f.data == Put(old(f.data), old(f.pos), EncodeAll(Picked(children, typ, onlyOne)))
      ensures ok ==> f.pos == old(f.pos) + |EncodeAll(Picked(children, typ, onlyOne))|
    {
      ghost var d0, p0 := f.data, f.pos;
      ghost var ms: seq<Atom> := [];
      for i := 0 to |children|
        invariant ms == Matching(children[..i], typ) && (onlyOne ==> ms == [])
        invariant AllWritable(ms) && WroteAll(f.data, f.pos, d0, p0, ms)
      {
        MatchingNext(children, typ, i);
        if children[i].Box? && children[i].typ == typ {
          FormedAt(children, i);
          Unwritable(children, typ, i);
          ok := WriteOne(children[i], d0, p0, ms);
          if onlyOne {
            FirstMatch(children, typ, i);
            OneAtom(children[i]);
            return;
          }
          if !ok {
            return;
          }
          ms := ms + [children[i]];
        }
      }
      assert children[..|children|] == children;
      return true;
    }

    /** Room for the index to grow in: four bytes for every entry of a table
        that takes 32 bits, and some to spare. */
    method CalcRoom(tables: seq<Atom>) returns (room: nat)
      ensures room == 1024 + 4 * NarrowEntries(tables)
    {
      room := 1024;
      for i := 0 to |tables|
        invariant room == 1024 + 4 * NarrowEntries(tables[..i])
      {
        assert tables[..i + 1][..i] == tables[..i];
        if tables[i].ChunkOffsets? && !Wide(tables[i].offsets) {
          var cnt := |tables[i].offsets|;
          room := room + cnt * 4;
        }
      }
      assert tables[..|tables|] == tables;
    }

    /** Writes what comes before the reserved space. */
    method WriteIndexFirst() returns (ok: bool)
      requires f.data == [] && f.pos == 0
      requires AllFormed(children) && Matching(children, MOOV) != []
      modifies f, this`moovStart, this`moovSize
      ensures ok <==> AllWritable(Picked(children, FTYP, true)) && Writable(Moov()) && AllWritable(Matching(children, UDTA))
      ensures ok ==> f.data == EncodeAll(Picked(children, FTYP, true)) + (Encode(Moov()) + EncodeAll(Matching(children, UDTA)))
      ensures ok ==> f.pos == |f.data| && moovStart == |EncodeAll(Picked(children, FTYP, true))| && moovSize == |Encode(Moov())|
    {
      ok := WriteAtomType(FTYP, true);
      if !ok {
        return;
      }
      PutEmpty(EncodeAll(Picked(children, FTYP, true)));
      moovStart := f.pos;
      OneAtom(Moov());
      ok := WriteAllOf(MOOV, true, [Moov()]);
      if !ok {
        return;
      }
      moovSize := f.pos - moovStart;
      Concatenate(EncodeAll(Picked(children, FTYP, true)), Encode(Moov()), EncodeAll(Matching(children, UDTA)));
      ok := WriteAllOf(UDTA, false, Matching(children, UDTA));
    }

    /** Appends the children of a type. */
    method WriteAllOf(typ: Bytes, onlyOne: bool, ghost ms: seq<Atom>) returns (ok: bool)
      requires AllFormed(children) && f.pos == |f.data| && ms == Picked(children, typ, onlyOne)
      modifies f
      ensures ok <==> AllWritable(ms)
      ensures ok ==> f.data == old(f.data) + EncodeAll(ms) && f.pos == |f.data|
    {
      Append(f.data, EncodeAll(ms));
      ok := WriteAtomType(typ, onlyOne);
    }

    /** A free atom whose contents are left out for now. */
    method Reserve(roomSize: nat)
      requires f.pos == |f.data|
      modifies f
      ensures f.data == old(f.data) + FreeHeader(roomSize + 8) && f.pos == |f.data| + roomSize
    {
      Concatenate(f.data, U32(roomSize + 8), FREE);
      WriteAtEnd(f, U32(roomSize + 8));
      WriteAtEnd(f, FREE);
      var pos := f.pos;
      f.SetPosition(pos + roomSize);
    }

    /** The header of the media data, behind a free atom of eight bytes. */
    method BeginMdat(ghost gap: nat)
      requires f.pos == |f.data| + gap
      modifies f, this`mdatStart
      ensures f.data == old(f.data) + Zeros(gap) + MdatSpace()
      ensures f.pos == |f.data| && mdatStart == old(f.pos) + 8
    {
      ghost var d := f.data + Zeros(gap);
      Concatenate(d, U32(8), FREE);
      Concatenate(d + FreeHeader(8), U32(0), MDAT);
      Concatenate(d, FreeHeader(8), U32(0) + MDAT);
      mdatStart := f.pos;
      WriteBehind(f, U32(8), gap);
      WriteAtEnd(f, FREE);
      mdatStart := mdatStart + 8;
      WriteAtEnd(f, U32(0));
      WriteAtEnd(f, MDAT);
    }

    /** Writes the file up to where the chunks go. */
    method BeginOptimalWrite() returns (ok: bool)
      requires f.data == [] && f.pos == 0 && AllFormed(children)
      requires Matching(children, MOOV) != [] && RoomFor(Matching(children, MOOV)[0], Matching(children, UDTA))
      modifies this, f
      ensures children == origin == old(children)
      ensures ok <==> AllWritable(Picked(children, FTYP, true)) && Writable(Moov()) && AllWritable(Matching(children, UDTA))
                      && Matching(children, MDAT) != []
      ensures ok ==> Valid() && payload == [] && head == EncodeAll(Picked(children, FTYP, true))
    {
      var roomSize;
      ok, roomSize := StartIndex();
      if ok {
        ok := ReserveRoom(roomSize);
      }
    }

    /** Writes what comes before the reserved space, and finds its size. */
    method StartIndex() returns (ok: bool, roomSize: nat)
      requires f.data == [] && f.pos == 0 && AllFormed(children)
      requires Matching(children, MOOV) != [] && RoomFor(Matching(children, MOOV)[0], Matching(children, UDTA))
      modifies this, f
      ensures children == origin == old(children)
      ensures ok <==> AllWritable(Picked(children, FTYP, true)) && Writable(Moov()) && AllWritable(Matching(children, UDTA))
      ensures ok ==> IndexWritten() && Relocated(origin, children) && roomSize == room
      ensures ok ==> f.data == head + index && f.pos == |f.data| && payload == []
      ensures ok ==> moovStart == |head| && head == EncodeAll(Picked(children, FTYP, true))
    {
      origin, roomSize := children, 0;
      ok := WriteIndexFirst();
      if !ok {
        return;
      }
      roomSize := CalcRoom(Tables(Matching(children, MOOV)[0]));
      head, index := EncodeAll(Picked(children, FTYP, true)), Encode(Moov()) + EncodeAll(Matching(children, UDTA));
      room, payload := roomSize, [];
      SameAsItself(children);
    }

    method ReserveRoom(roomSize: nat) returns (ok: bool)
      requires f.data == head + index && f.pos == |f.data| && roomSize == room && payload == []
      modifies f, this`mdatStart
      ensures ok <==> Matching(children, MDAT) != []
      ensures ok ==> Begun(f.data, f.pos, head, index, room, payload) && mdatStart == |head| + |index| + room + 16
    {
      Reserve(roomSize);
      if Matching(children, MDAT) == [] {
        return false;
      }
      BeginMdat(roomSize);
      Assembled(head, index, room);
      return true;
    }

    /** Copies a chunk, after which the index may hold other chunk offsets. */
    method RewriteChunk(chunk: Bytes, relocated: seq<Atom>)
      requires Valid() && Relocated(origin, relocated)
      modifies this`children, this`payload, f
      ensures Valid() && payload == old(payload) + chunk && children == relocated
    {
      Concatenate(head + (index + Reserved(room)), payload, chunk);
      WriteAtEnd(f, chunk);
      payload := payload + chunk;
      children := relocated;
    }

    /** Completes the header of the media data; it is one of two sizes, and in
        either case the data stays where it is. */
    method FinishMdat() returns (ghost middle: Bytes)
      requires Begun(f.data, f.pos, head, index, room, payload) && mdatStart == |head| + |index| + room + 16
      modifies f, this`mdatStart
      ensures f.data == head + middle + MdatHeader(|payload|) + payload && mdatStart == |head| + |middle|
      ensures |middle| + |MdatHeader(|payload|)| == |index| + room + 24
    {
      var end := f.pos;
      var size := end - mdatStart;
      if size <= MAX32 {
        WriteSize(size);
        middle := Middle(index, room, true);
      } else {
        mdatStart := mdatStart - 8;
        WriteLargeSize(size);
        middle := Middle(index, room, false);
      }
      f.SetPosition(end);
    }

    method WriteSize(size: nat)
      requires size == |payload| + 8 <= MAX32
      requires Begun(f.data, f.pos, head, index, room, payload) && mdatStart == |head| + |index| + room + 16
      modifies f
      ensures f.data == head + Middle(index, room, true) + MdatHeader(|payload|) + payload
    {
      Narrow(head, index, room, payload, size);
      WriteSmallHeader(size);
    }

    method WriteSmallHeader(size: nat)
      modifies f
      ensures f.data == Put(old(f.data), mdatStart, U32(size))
    {
      f.SetPosition(mdatStart);
      f.WriteUInt32(size);
    }

    method WriteLargeSize(size: nat)
      requires size == |payload| + 8 > MAX32
      requires Begun(f.data, f.pos, head, index, room, payload) && mdatStart == |head| + |index| + room + 8
      modifies f
      ensures f.data == head + Middle(index, room, false) + MdatHeader(|payload|) + payload
    {
      WidenHeader(head, index, room, payload, size);
      WriteLargeHeader(size);
    }

    method WriteLargeHeader(size: nat)
      modifies f
      ensures f.data == Put(old(f.data), mdatStart, U32(1) + MDAT + U64(size + 8))
    {
      PutAppend(f.data, mdatStart, U32(1), MDAT);
      PutAppend(f.data, mdatStart, U32(1) + MDAT, U64(size + 8));
      f.SetPosition(mdatStart);
      f.WriteUInt32(1);
      f.WriteBytes(MDAT);
      f.WriteUInt64(size + 8);
    }

    /** User data moves behind a rewritten index that has changed its size; it
        is not written again behind one that has not. */
    ghost function Moved(size: nat): seq<Atom>
      reads this`children, this`moovSize
    {
      if size != moovSize then Matching(children, UDTA) else []
    }

    /** Completes the file. The space reserved always suffices: the index is
        rewritten in place, what it leaves becomes one free atom, and the media
        data stays where it is. If the index has kept its size, the free atom
        takes the place of the user data. */
    method FinishOptimalWrite() returns (ok: bool, ghost gap: nat, ghost junk: Bytes)
      requires Valid()
      modifies f, this`mdatStart
      ensures Matching(children, MOOV) != []
      ensures ok <==> Writable(Moov())
      ensures ok ==> Finished(f.data, head, Encode(Moov()) + EncodeAll(Moved(|Encode(Moov())|)), gap, junk, payload)
      ensures ok ==> |f.data| == old(|f.data|) && gap <= MAX32
      ensures ok ==> DataStands(f.data, payload)
    {
      ghost var bs := RewrittenFits();
      ok, gap, junk := FinishFile(Matching(children, MOOV)[0], bs);
      if ok {
        FinishedStands(f.data, head, bs, gap, junk, payload);
      }
    }

    method FinishFile(moov: Atom, ghost bs: Bytes) returns (ok: bool, ghost gap: nat, ghost junk: Bytes)
      requires Begun(f.data, f.pos, head, index, room, payload)
      requires moovStart == |head| && mdatStart == |head| + |index| + room + 16
      requires Rewriting(moov, bs) && |bs| <= |index| + room && |index| + room + 24 <= MAX32
      modifies f, this`mdatStart
      ensures ok <==> Writable(moov)
      ensures ok ==> Finished(f.data, head, bs, gap, junk, payload) && |f.data| == old(|f.data|) && gap <= MAX32
    {
      ghost var middle := FinishMdat();
      f.SetPosition(moovStart);
      Concatenate(head + middle, MdatHeader(|payload|), payload);
      ok := RewriteIndex(moov, bs, middle, MdatHeader(|payload|) + payload);
      gap, junk := Remaining(head, middle, bs, payload);
    }

    /** What is rewritten fits into the space reserved. */
    lemma RewrittenFits() returns (bs: Bytes)
      requires Valid()
      ensures Matching(children, MOOV) != [] && Rewriting(Moov(), bs)
      ensures |bs| <= |index| + room && |index| + room + 24 <= MAX32
    {
      IndexFits(origin, children);
      FormedMatch(children, MOOV);
      bs := Encode(Moov()) + EncodeAll(Moved(|Encode(Moov())|));
    }

    /** Writes the index again where the file stands, user data behind it if it
        has to move, and a free atom over what is left up to the media data. */
    method RewriteIndex(moov: Atom, ghost bs: Bytes, ghost middle: Bytes, ghost rest: Bytes) returns (ok: bool)
      requires Rewriting(moov, bs) && |bs| + 8 <= |middle|
      requires f.data == head + middle + rest && f.pos == |head| && mdatStart == |head| + |middle|
      modifies f
      ensures ok <==> Writable(moov)
      ensures ok ==> f.data == head + Shrunk(bs, middle) + rest
    {
      ok := RewriteAtoms(moov, bs);
      if ok {
        FillRest(bs, middle, rest);
      }
    }

    method FillRest(ghost bs: Bytes, ghost middle: Bytes, ghost rest: Bytes)
      requires |bs| + 8 <= |middle| && mdatStart == |head| + |middle|
      requires f.data == Put(head + middle + rest, |head|, bs) && f.pos == |head| + |bs|
      modifies f
      ensures f.data == head + Shrunk(bs, middle) + rest
    {
      Refilled(head, bs, middle, rest);
      assert mdatStart - f.pos == |middle| - |bs|;
      var ok := FillGap(f, mdatStart);
    }

    /** `bs` is what is written again. */
    ghost predicate Rewriting(moov: Atom, bs: Bytes)
      reads this`children, this`moovSize
    {
      && Formed(moov) && AllFormed(children) && AllWritable(Matching(children, UDTA))
      && bs == Encode(moov) + EncodeAll(Moved(|Encode(moov)|))
    }

    method RewriteAtoms(moov: Atom, ghost bs: Bytes) returns (ok: bool)
      requires Rewriting(moov, bs)
      modifies f
      ensures ok <==> Writable(moov)
      ensures ok ==> f.data == Put(old(f.data), old(f.pos), bs) && f.pos == old(f.pos) + |bs|
    {
      PutAppend(f.data, f.pos, Encode(moov), EncodeAll(Moved(|Encode(moov)|)));
      var start := f.pos;
      ok := Write(f, moov);
      if ok {
        MoveUserData(f.pos - start);
      }
    }

    method MoveUserData(size: nat)
      requires AllFormed(children) && AllWritable(Matching(children, UDTA))
      modifies f
      ensures f.data == Put(old(f.data), old(f.pos), EncodeAll(Moved(size))) && f.pos == old(f.pos) + |EncodeAll(Moved(size))|
    {
      if size != moovSize {
        var ok := WriteAtomType(UDTA, false);
      }
    }

    method WriteOne(a: Atom, ghost d0: Bytes, ghost p0: nat, ghost ms: seq<Atom>) returns (ok: bool)
      requires Formed(a) && AllWritable(ms) && WroteAll(f.data, f.pos, d0, p0, ms)
      modifies f
      ensures ok <==> Writable(a)
      ensures ok ==> AllWritable(ms + [a]) && WroteAll(f.data, f.pos, d0, p0, ms + [a])
    {
      WroteNext(f.data, f.pos, d0, p0, ms, a);
      ok := Write(f, a);
    }
  }

  ghost predicate WroteAll(d: Bytes, pos: nat, d0: Bytes, p0: nat, as_: seq<Atom>) {
    d == Put(d0, p0, EncodeAll(as_)) && pos == p0 + |EncodeAll(as_)|
  }

  lemma EncodeSnoc(as_: seq<Atom>, a: Atom)
    ensures EncodeAll(as_ + [a]) == EncodeAll(as_) + Encode(a)
    ensures AllWritable(as_ + [a]) <==> AllWritable(as_) && Writable(a)
  {
    assert (as_ + [a])[..|as_|] == as_;
  }

  lemma WroteNext(d: Bytes, pos: nat, d0: Bytes, p0: nat, as_: seq<Atom>, a: Atom)
    requires WroteAll(d, pos, d0, p0, as_)
    ensures WroteAll(Put(d, pos, Encode(a)), pos + |Encode(a)|, d0, p0, as_ + [a])
    ensures AllWritable(as_ + [a]) <==> AllWritable(as_) && Writable(a)
  {
    EncodeSnoc(as_, a);
    PutAppend(d0, p0, EncodeAll(as_), Encode(a));
  }

  /** One atom that cannot be written is enough to stop. */
  lemma Unwritable(children: seq<Atom>, typ: Bytes, i: nat)
    requires i < |children| && children[i].Box? && children[i].typ == typ
    ensures AllWritable(Matching(children, typ)) ==> Writable(children[i])
  {
    MatchingNext(children, typ, i);
    MatchingPrefix(children, typ, i + 1);
    var ms := Matching(children, typ);
    var k := |Matching(children[..i], typ)|;
    assert ms[k] == children[i];
    if AllWritable(ms) {
      AllWritablePrefix(ms, k + 1);
    }
  }
}
