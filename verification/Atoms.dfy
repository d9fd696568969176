/** The boxes of section 4.2 of ISO/IEC 14496-12: how trees of atoms are
    written, with sizes patched in afterwards, and read back
    (mp4v2/src/mp4atom.cpp and mp4v2/src/atom_standard.cpp). */
module Atoms {
  import opened Wrappers
  import opened ByteFile

  const UUID: Bytes := [0x75, 0x75, 0x69, 0x64]
  const MDAT: Bytes := [0x6D, 0x64, 0x61, 0x74]
  const FREE: Bytes := [0x66, 0x72, 0x65, 0x65]
  const STCO: Bytes := [0x73, 0x74, 0x63, 0x6F]
  const CO64: Bytes := [0x63, 0x6F, 0x36, 0x34]

  /** An atom: its type, the extended type of a uuid atom, the bytes of its
      properties, and its children; or the table of a track's chunk offsets,
      whose type follows from its values. */
  datatype Atom =
    | Box(typ: Bytes, ext: Bytes, props: Bytes, children: seq<Atom>)
    | ChunkOffsets(flags: Bytes, offsets: seq<nat>)

  // ---- Chunk offset tables ----

  predicate Wide(offsets: seq<nat>) {
    exists i :: 0 <= i < |offsets| && offsets[i] > MAX32
  }

  function OffsetField(offset: nat, wide: bool): (bs: Bytes)
    ensures |bs| == if wide then 8 else 4
  {
    if wide then U64(offset) else U32(offset)
  }

  function Table(offsets: seq<nat>, wide: bool): (bs: Bytes)
    ensures |bs| == if wide then 8 * |offsets| else 4 * |offsets|
  {
    if offsets == [] then []
    else Table(offsets[..|offsets| - 1], wide) + OffsetField(offsets[|offsets| - 1], wide)
  }

  /** What an atom is written as: chunk offsets take 32 bits each in an stco
      atom, or 64 in a co64 atom if any of them needs more. */
  function Plain(a: Atom): (b: Atom)
    ensures b.Box?
  {
    match a
    case Box(_, _, _, _) => a
    case ChunkOffsets(flags, offsets) =>
      Box(if Wide(offsets) then CO64 else STCO, [], flags + U32(|offsets|) + Table(offsets, Wide(offsets)), [])
  }

  // ---- Writing ----

  /** Types and properties. */
  function Head(a: Atom): (bs: Bytes) {
    var b := Plain(a);
    b.typ + b.ext + b.props
  }

  /** What follows the size field. */
  ghost function Body(a: Atom): (bs: Bytes)
    decreases a, 0
  {
    if a.Box? then Head(a) + EncodeAll(a.children) else Head(a)
  }

  ghost function Encode(a: Atom): (bs: Bytes)
    ensures |bs| == 4 + |Body(a)|
    decreases a, 1
  {
    U32(4 + |Body(a)|) + Body(a)
  }

  ghost function EncodeAll(as_: seq<Atom>): Bytes
    decreases as_
  {
    if as_ == [] then [] else EncodeAll(as_[..|as_| - 1]) + Encode(as_[|as_| - 1])
  }

  /** What `Write` can write: media data is not written this way, and no atom
      may need more than 32 bits for its size. */
  ghost predicate Writable(a: Atom)
    decreases a, 1
  {
    |Encode(a)| <= MAX32 && (a.Box? ==> a.typ != MDAT && AllWritable(a.children))
  }

  ghost predicate AllWritable(as_: seq<Atom>)
    decreases as_
  {
    as_ == [] || (AllWritable(as_[..|as_| - 1]) && Writable(as_[|as_| - 1]))
  }

  lemma {:induction false} AllWritablePrefix(as_: seq<Atom>, i: nat)
    requires i <= |as_| && AllWritable(as_)
    ensures AllWritable(as_[..i]) && (i > 0 ==> Writable(as_[i - 1]))
    decreases |as_|
  {
    if i < |as_| {
      AllWritablePrefix(as_[..|as_| - 1], i);
      assert as_[..|as_| - 1][..i] == as_[..i];
    } else {
      assert as_[..i] == as_;
    }
  }

  lemma EncodeAllNext(as_: seq<Atom>, i: nat)
    requires i < |as_|
    ensures EncodeAll(as_[..i + 1]) == EncodeAll(as_[..i]) + Encode(as_[i])
  {
    assert as_[..i + 1][..i] == as_[..i];
  }

  lemma {:induction false} AllWritableNext(as_: seq<Atom>, i: nat)
    requires i < |as_|
    ensures AllWritable(as_[..i + 1]) <==> AllWritable(as_[..i]) && Writable(as_[i])
    ensures AllWritable(as_) ==> Writable(as_[i])
  {
    assert as_[..i + 1][..i] == as_[..i];
    if AllWritable(as_) { AllWritablePrefix(as_, i + 1); }
  }

  /** Types have four bytes, and uuid atoms an extended type of sixteen. */
  ghost predicate Formed(a: Atom)
    decreases a, 1
  {
    match a
    case Box(typ, ext, _, children) => |typ| == 4 && |ext| == (if typ == UUID then 16 else 0) && AllFormed(children)
    case ChunkOffsets(flags, _) => |flags| == 4
  }

  ghost predicate AllFormed(as_: seq<Atom>)
    decreases as_
  {
    as_ == [] || (AllFormed(as_[..|as_| - 1]) && Formed(as_[|as_| - 1]))
  }

  lemma {:induction false} FormedAt(as_: seq<Atom>, i: nat)
    requires AllFormed(as_) && i < |as_|
    ensures Formed(as_[i])
    decreases |as_|
  {
    if i < |as_| - 1 {
      FormedAt(as_[..|as_| - 1], i);
    }
  }

  // ---- What a reader of the file finds ----

  /** The chunk offsets of an atom that begins at `pos`: behind size, type and
      flags their number, then entries of eight bytes if its type is co64, and
      of four otherwise (section 8.7.5 of ISO/IEC 14496-12). */
  function StoredOffsets(d: Bytes, pos: nat): (os: Option<seq<nat>>) {
    if pos + 16 > |d| then None
    else
      var n, p := Number(d[pos + 12..pos + 16]), pos + 16;
      if d[pos + 4..pos + 8] == [0x63, 0x6F, 0x36, 0x34] then
        if p + 8 * n > |d| then None
        else Some(seq(n, i requires 0 <= i < n => Number(d[p + 8 * i..p + 8 * i + 8])))
      else
        if p + 4 * n > |d| then None
        else Some(seq(n, i requires 0 <= i < n => Number(d[p + 4 * i..p + 4 * i + 4])))
  }

  lemma {:induction false} EntryAt(offsets: seq<nat>, wide: bool, i: nat)
    requires i < |offsets|
    ensures var w := if wide then 8 else 4;
            w * i + w <= |Table(offsets, wide)| && Table(offsets, wide)[w * i..w * i + w] == OffsetField(offsets[i], wide)
  {
    var m, w := |offsets| - 1, if wide then 8 else 4;
    if i < m {
      EntryAt(offsets[..m], wide, i);
      FrontSlice(Table(offsets[..m], wide), OffsetField(offsets[m], wide), w * i, w * i + w);
    }
  }

  lemma FrontSlice(front: Bytes, rest: Bytes, lo: nat, hi: nat)
    requires lo <= hi <= |front|
    ensures (front + rest)[lo..hi] == front[lo..hi]
  {}

  lemma Inside(d: Bytes, p: nat, bs: Bytes, lo: nat, hi: nat)
    requires At(d, p, bs) && lo <= hi <= |bs|
    ensures d[p + lo..p + hi] == bs[lo..hi]
  {
    forall k | 0 <= k < hi - lo
      ensures d[p + lo..p + hi][k] == bs[lo..hi][k]
    {
      assert d[p..p + |bs|][lo + k] == d[p + lo + k];
    }
  }

  /** Where the parts of a written table stand. */
  lemma TableParts(d: Bytes, pos: nat, size: Bytes, typ: Bytes, flags: Bytes, count: Bytes, table: Bytes)
    requires |size| == |typ| == |flags| == |count| == 4 && At(d, pos, size + (typ + [] + (flags + count + table)))
    ensures pos + 16 <= |d| && At(d, pos + 16, table) && d[pos + 4..pos + 8] == typ && d[pos + 12..pos + 16] == count
  {
    AtPart(d, pos, size, typ + [] + (flags + count + table));
    AtPart(d, pos + 4, typ + [], flags + count + table);
    assert typ + [] == typ;
    AtPart(d, pos + 8, flags + count, table);
    AtPart(d, pos + 8, flags, count);
  }

  lemma EntryStored(d: Bytes, p: nat, offsets: seq<nat>, wide: bool, i: nat)
    requires i < |offsets| && At(d, p, Table(offsets, wide)) && offsets[i] <= if wide then TWO64 - 1 else MAX32
    ensures var w := if wide then 8 else 4;
            p + w * i + w <= |d| && Number(d[p + w * i..p + w * i + w]) == offsets[i]
  {
    var w := if wide then 8 else 4;
    EntryAt(offsets, wide, i);
    Inside(d, p, Table(offsets, wide), w * i, w * i + w);
  }

  /** Entries of the width the type promises are read as they were written. */
  lemma EntriesStored(d: Bytes, pos: nat, offsets: seq<nat>, wide: bool)
    requires pos + 16 <= |d| && At(d, pos + 16, Table(offsets, wide)) && Number(d[pos + 12..pos + 16]) == |offsets|
    requires wide <==> d[pos + 4..pos + 8] == [0x63, 0x6F, 0x36, 0x34]
    requires forall i :: 0 <= i < |offsets| ==> offsets[i] <= if wide then TWO64 - 1 else MAX32
    ensures StoredOffsets(d, pos) == Some(offsets)
  {
    var os := StoredOffsets(d, pos).value;
    forall i | 0 <= i < |offsets|
      ensures os[i] == offsets[i]
    {
      EntryStored(d, pos + 16, offsets, wide, i);
    }
    assert os == offsets;
  }

  /** The type that stands in the file says how wide the entries are, and by it
      the offsets can be read. */
  ghost predicate TypedTable(d: Bytes, pos: nat, offsets: seq<nat>) {
    && pos + 16 <= |d|
    && d[pos + 4..pos + 8] == (if exists i :: 0 <= i < |offsets| && offsets[i] > 0xFFFF_FFFF
                               then [0x63, 0x6F, 0x36, 0x34] else [0x73, 0x74, 0x63, 0x6F])
    && ((forall i :: 0 <= i < |offsets| ==> offsets[i] < TWO64) ==> StoredOffsets(d, pos) == Some(offsets))
  }

  /** A written table tells by its type how wide its entries are: four bytes
      exactly if all offsets fit. A reader that goes by the type gets them. */
  lemma TableStored(d: Bytes, pos: nat, flags: Bytes, offsets: seq<nat>)
    requires |flags| == 4 && At(d, pos, Encode(ChunkOffsets(flags, offsets))) && |offsets| <= MAX32
    ensures TypedTable(d, pos, offsets)
  {
    var a, wide := ChunkOffsets(flags, offsets), Wide(offsets);
    TableParts(d, pos, U32(4 + |Body(a)|), if wide then CO64 else STCO, flags, U32(|offsets|), Table(offsets, wide));
    if forall i :: 0 <= i < |offsets| ==> offsets[i] < TWO64 {
      EntriesStored(d, pos, offsets, wide);
    }
  }

  lemma TableWritten(d: Bytes, pos: nat, flags: Bytes, offsets: seq<nat>)
    requires |flags| == 4 && Writable(ChunkOffsets(flags, offsets))
    ensures TypedTable(Put(d, pos, Encode(ChunkOffsets(flags, offsets))), pos, offsets)
  {
    var a := ChunkOffsets(flags, offsets);
    PutAt(d, pos, Encode(a));
    TableStored(Put(d, pos, Encode(a)), pos, flags, offsets);
  }

  /** Picks the type of a chunk offset table. */
  method Resolve(a: Atom) returns (b: Atom)
    ensures b == Plain(a)
    ensures a.ChunkOffsets? ==> b.Box? && (b.typ == [0x73, 0x74, 0x63, 0x6F] || b.typ == [0x63, 0x6F, 0x36, 0x34])
    ensures a.ChunkOffsets? ==> (b.typ == [0x63, 0x6F, 0x36, 0x34] <==> exists i :: 0 <= i < |a.offsets| && a.offsets[i] > 0xFFFF_FFFF)
  {
    if a.Box? {
      return a;
    }
    var typ, wide := STCO, false;
    for i := 0 to |a.offsets|
      invariant !wide && typ == STCO && forall k :: 0 <= k < i ==> a.offsets[k] <= MAX32
    {
      if a.offsets[i] > MAX32 {
        typ, wide := CO64, true;
        break;
      }
    }
    b := Box(typ, [], a.flags + U32(|a.offsets|) + Table(a.offsets, wide), []);
  }

  /** The file while an atom is being written: only its size is still zero. */
  ghost predicate Writing(d: Bytes, pos: nat, d0: Bytes, start: nat, written: Bytes) {
    d == Put(d0, start, U32(0) + written) && pos == start + 4 + |written|
  }

  lemma WriteMore(d: Bytes, pos: nat, d0: Bytes, start: nat, written: Bytes, more: Bytes)
    requires Writing(d, pos, d0, start, written)
    ensures Writing(Put(d, pos, more), pos + |more|, d0, start, written + more)
  {
    PutAppend(d0, start, U32(0) + written, more);
    Concatenate(U32(0), written, more);
  }

  /** Writes an atom where the file stands: a header whose size is not known
      yet, the properties, the children, and then the size. */
  method Write(f: File, a: Atom) returns (ok: bool)
    requires Formed(a)
    modifies f
    ensures ok <==> Writable(a)
    ensures ok ==> f.data == Put(old(f.data), old(f.pos), Encode(a)) && f.pos == old(f.pos) + |Encode(a)|
    ensures ok && a.ChunkOffsets? ==> TypedTable(f.data, old(f.pos), a.offsets)
    decreases a, 1
  {
    if a.Box? && a.typ == MDAT {
      return false;
    }
    var start := f.pos;
    ghost var d0 := f.data;
    WriteHead(f, a);
    if a.Box? {
      ok := WriteChildAtoms(f, a.children, d0, start, Head(a));
      if !ok {
        return;
      }
    }
    ok := FinishWrite(f, start, d0, Body(a));
    if ok && a.ChunkOffsets? {
      TableWritten(d0, start, a.flags, a.offsets);
    }
  }

  /** The header and the properties. */
  method WriteHead(f: File, a: Atom)
    requires Formed(a)
    modifies f
    ensures Writing(f.data, f.pos, old(f.data), old(f.pos), Head(a))
  {
    var b := Resolve(a);
    BeginWrite(f, b.typ, b.ext);
    WriteMore(f.data, f.pos, old(f.data), old(f.pos), b.typ + b.ext, b.props);
    f.WriteBytes(b.props);
  }

  method BeginWrite(f: File, typ: Bytes, ext: Bytes)
    requires |typ| == 4 && |ext| == (if typ == UUID then 16 else 0)
    modifies f
    ensures Writing(f.data, f.pos, old(f.data), old(f.pos), typ + ext)
  {
    f.WriteUInt32(0);
    assert Writing(f.data, f.pos, old(f.data), old(f.pos), []);
    WriteMore(f.data, f.pos, old(f.data), old(f.pos), [], typ);
    assert [] + typ == typ;
    f.WriteBytes(typ);
    WriteMore(f.data, f.pos, old(f.data), old(f.pos), typ, ext);
    if typ == UUID {
      f.WriteBytes(ext);
    }
  }

  method WriteChildAtoms(f: File, children: seq<Atom>, ghost d0: Bytes, ghost start: nat, ghost front: Bytes) returns (ok: bool)
    requires AllFormed(children) && Writing(f.data, f.pos, d0, start, front)
    modifies f
    ensures ok <==> AllWritable(children)
    ensures ok ==> Writing(f.data, f.pos, d0, start, front + EncodeAll(children))
    decreases children, 0
  {
    ghost var written := front;
    for i := 0 to |children|
      invariant Writing(f.data, f.pos, d0, start, written) && written == front + EncodeAll(children[..i])
      invariant AllWritable(children[..i])
    {
      EncodeAllNext(children, i);
      FormedAt(children, i);
      Concatenate(front, EncodeAll(children[..i]), Encode(children[i]));
      ok := WriteChild(f, children[i], d0, start, written);
      AllWritableNext(children, i);
      if !ok {
        return false;
      }
      written := written + Encode(children[i]);
    }
    assert children[..|children|] == children;
    return true;
  }

  method WriteChild(f: File, child: Atom, ghost d0: Bytes, ghost start: nat, ghost written: Bytes) returns (ok: bool)
    requires Formed(child) && Writing(f.data, f.pos, d0, start, written)
    modifies f
    ensures ok <==> Writable(child)
    ensures ok ==> Writing(f.data, f.pos, d0, start, written + Encode(child))
    decreases child, 2
  {
    WriteMore(f.data, f.pos, d0, start, written, Encode(child));
    ok := Write(f, child);
  }

  /** Goes back to write the size, unless it needs more than 32 bits. */
  method FinishWrite(f: File, start: nat, ghost d0: Bytes, ghost body: Bytes) returns (ok: bool)
    requires Writing(f.data, f.pos, d0, start, body)
    modifies f
    ensures ok <==> 4 + |body| <= MAX32
    ensures ok ==> f.data == Put(d0, start, U32(4 + |body|) + body) && f.pos == start + 4 + |body|
  {
    var end := f.pos;
    var size := end - start;
    if size > MAX32 {
      return false;
    }
    PutPatchStart(d0, start, U32(0), U32(size), body);
    f.SetPosition(start);
    f.WriteUInt32(size);
    f.SetPosition(end);
    return true;
  }
}
