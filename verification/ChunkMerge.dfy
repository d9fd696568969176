/** Copying a movie chunk by chunk in the order of time (`MP4FileCopy` in
    src/mp4filex.cpp). */
module ChunkMerge {

  const INVALID_TIME: int := 0xFFFF_FFFF_FFFF_FFFF

  /** A track: the time of each of its chunks on the movie's clock, as converted
      from the track's own, and whether it is a hint track. */
  datatype TrackInfo = TrackInfo(times: seq<int>, hint: bool)

  /** A chunk written to the copy; ids count from 1. */
  datatype Chunk = Chunk(track: nat, id: nat)

  datatype ChunkInfo = ChunkInfo(current: nat, final: nat, time: int)

  predicate Movie(tracks: seq<TrackInfo>) {
    forall i, c :: 0 <= i < |tracks| && 0 <= c < |tracks[i].times| ==> 0 <= tracks[i].times[c] <= INVALID_TIME
  }

  // ---- The choice of the next chunk ----

  /** A chunk can be chosen unless its time is the invalid one, which only a
      hint track's may be. */
  predicate Usable(t: TrackInfo, c: nat)
    requires c < |t.times|
  {
    t.hint || t.times[c] != INVALID_TIME
  }

  /** The track at `i`, of which `ps[i]` chunks are copied, has one to offer. */
  predicate Ready(tracks: seq<TrackInfo>, ps: seq<nat>, i: nat)
    requires i < |tracks| == |ps|
  {
    ps[i] < |tracks[i].times| && Usable(tracks[i], ps[i])
  }

  function TimeAt(tracks: seq<TrackInfo>, ps: seq<nat>, i: nat): int
    requires i < |tracks| == |ps| && ps[i] < |tracks[i].times|
  {
    tracks[i].times[ps[i]]
  }

  /** Of the first `n` tracks, `t` is to give the next chunk: the earliest, and
      among equally early ones the first, but a hint track before others and
      after hint tracks that follow it. */
  predicate Best(tracks: seq<TrackInfo>, ps: seq<nat>, n: nat, t: nat)
    requires n <= |tracks| == |ps|
  {
    && t < n && Ready(tracks, ps, t)
    && (forall j {:trigger Ready(tracks, ps, j)} :: 0 <= j < n && Ready(tracks, ps, j) ==>
          && TimeAt(tracks, ps, t) <= TimeAt(tracks, ps, j)
          && (j > t && tracks[j].hint ==> TimeAt(tracks, ps, t) < TimeAt(tracks, ps, j))
          && (j < t && !tracks[t].hint ==> TimeAt(tracks, ps, t) < TimeAt(tracks, ps, j)))
  }

  predicate Chosen(tracks: seq<TrackInfo>, ps: seq<nat>, t: nat) {
    |ps| == |tracks| && Best(tracks, ps, |tracks|, t)
  }

  /** The rule names one track. */
  lemma BestIsUnique(tracks: seq<TrackInfo>, ps: seq<nat>, n: nat, t: nat, t': nat)
    requires n <= |tracks| == |ps| && Best(tracks, ps, n, t) && Best(tracks, ps, n, t')
    ensures t == t'
  {
    assert Ready(tracks, ps, t) && Ready(tracks, ps, t');
  }

  /** Track `i` has a chunk left, and its time is a valid one or it is a hint
      track. */
  predicate Offers(tracks: seq<TrackInfo>, ps: seq<nat>, i: nat)
    requires i < |tracks| == |ps|
  {
    ps[i] < |tracks[i].times| && (tracks[i].hint || tracks[i].times[ps[i]] != 0xFFFF_FFFF_FFFF_FFFF)
  }

  /** Two tracks offer chunks of the same time. */
  predicate Tied(tracks: seq<TrackInfo>, ps: seq<nat>, i: nat, j: nat)
    requires i < |tracks| == |ps| && j < |tracks|
  {
    Offers(tracks, ps, i) && Offers(tracks, ps, j) && tracks[i].times[ps[i]] == tracks[j].times[ps[j]]
  }

  /** The next chunk is the earliest on offer. Of equally early ones it is that
      of the last hint track, or of the first track if there is no hint track
      among them. */
  ghost predicate TurnOf(tracks: seq<TrackInfo>, ps: seq<nat>, t: nat) {
    && |ps| == |tracks| && t < |tracks| && Offers(tracks, ps, t)
    && (forall j {:trigger Offers(tracks, ps, j)} :: 0 <= j < |tracks| && Offers(tracks, ps, j) ==>
          tracks[t].times[ps[t]] <= tracks[j].times[ps[j]])
    && (if exists j {:trigger Tied(tracks, ps, t, j)} :: 0 <= j < |tracks| && Tied(tracks, ps, t, j) && tracks[j].hint
        then tracks[t].hint && forall j {:trigger Tied(tracks, ps, t, j)} :: t < j < |tracks| && Tied(tracks, ps, t, j) ==> !tracks[j].hint
        else forall j {:trigger Tied(tracks, ps, t, j)} :: 0 <= j < |tracks| && Tied(tracks, ps, t, j) ==> t <= j)
  }

  /** The scan chooses the track whose turn it is. */
  lemma ChosenIffTurn(tracks: seq<TrackInfo>, ps: seq<nat>, t: nat)
    requires |ps| == |tracks|
    ensures Chosen(tracks, ps, t) <==> TurnOf(tracks, ps, t)
  {
    if Chosen(tracks, ps, t) {
      assert Offers(tracks, ps, t);
      forall j | 0 <= j < |tracks| && Offers(tracks, ps, j)
        ensures tracks[t].times[ps[t]] <= tracks[j].times[ps[j]]
      {
        assert Ready(tracks, ps, j);
      }
      forall j | 0 <= j < |tracks| && Tied(tracks, ps, t, j)
        ensures (tracks[j].hint ==> tracks[t].hint && j <= t) && (!tracks[t].hint ==> t <= j)
      {
        assert Ready(tracks, ps, j);
      }
      if tracks[t].hint { assert Tied(tracks, ps, t, t); }
    }
    if TurnOf(tracks, ps, t) {
      forall j {:trigger Ready(tracks, ps, j)} | 0 <= j < |tracks| && Ready(tracks, ps, j)
        ensures TimeAt(tracks, ps, t) <= TimeAt(tracks, ps, j)
        ensures j > t && tracks[j].hint ==> TimeAt(tracks, ps, t) < TimeAt(tracks, ps, j)
        ensures j < t && !tracks[t].hint ==> TimeAt(tracks, ps, t) < TimeAt(tracks, ps, j)
      {
        assert Offers(tracks, ps, j);
        assert TimeAt(tracks, ps, t) == TimeAt(tracks, ps, j) ==> Tied(tracks, ps, t, j);
      }
    }
  }

  // ---- Runs ----

  /** Ids of the chunks of track `i`, in the order they were copied. */
  function Ids(copied: seq<Chunk>, i: nat): seq<nat> {
    if copied == [] then []
    else
      var last := copied[|copied| - 1];
      Ids(copied[..|copied| - 1], i) + if last.track == i then [last.id] else []
  }

  /** How many chunks of each track have been copied. */
  function Counts(copied: seq<Chunk>, n: nat): (ps: seq<nat>)
    ensures |ps| == n && forall i :: 0 <= i < n ==> ps[i] == |Ids(copied, i)|
  {
    seq(n, i requires 0 <= i < n => |Ids(copied, i)|)
  }

  /** Every chunk was copied when it was its track's turn, and was the next of
      that track. */
  ghost predicate InTurn(tracks: seq<TrackInfo>, copied: seq<Chunk>) {
    forall k :: 0 <= k < |copied| ==>
      var ps, c := Counts(copied[..k], |tracks|), copied[k];
      TurnOf(tracks, ps, c.track) && c.id == ps[c.track] + 1
  }

  lemma InTurnNext(tracks: seq<TrackInfo>, ps: seq<nat>, copied: seq<Chunk>, t: nat)
    requires InTurn(tracks, copied) && Copying(tracks, ps, copied) && TurnOf(tracks, ps, t)
    ensures InTurn(tracks, copied + [Chunk(t, ps[t] + 1)])
  {
    var copied' := copied + [Chunk(t, ps[t] + 1)];
    forall k | 0 <= k < |copied'|
      ensures var qs, c := Counts(copied'[..k], |tracks|), copied'[k];
              TurnOf(tracks, qs, c.track) && c.id == qs[c.track] + 1
    {
      assert copied'[..k] == copied[..k];
      if k == |copied| {
        assert copied[..k] == copied;
        assert Counts(copied, |tracks|) == ps;
      }
    }
  }

  function FirstIds(n: nat): (ids: seq<nat>)
    ensures |ids| == n && forall k :: 0 <= k < n ==> ids[k] == k + 1
  {
    seq(n, k requires 0 <= k => k + 1)
  }

  function Sum(ps: seq<nat>): nat {
    if ps == [] then 0 else Sum(ps[..|ps| - 1]) + ps[|ps| - 1]
  }

  lemma {:induction false} SumUpdate(ps: seq<nat>, t: nat)
    requires t < |ps|
    ensures Sum(ps[t := ps[t] + 1]) == Sum(ps) + 1
  {
    var m := |ps| - 1;
    var ps' := ps[t := ps[t] + 1];
    if t == m {
      assert ps'[..m] == ps[..m];
    } else {
      assert ps'[..m] == ps[..m][t := ps[t] + 1];
      SumUpdate(ps[..m], t);
    }
  }

  lemma {:induction false} SumBounded(ps: seq<nat>, qs: seq<nat>)
    requires |ps| == |qs| && forall i :: 0 <= i < |ps| ==> ps[i] <= qs[i]
    ensures Sum(ps) <= Sum(qs) && (Sum(ps) == Sum(qs) ==> ps == qs)
  {
    if ps != [] {
      var m := |ps| - 1;
      SumBounded(ps[..m], qs[..m]);
      assert ps == ps[..m] + [ps[m]] && qs == qs[..m] + [qs[m]];
    }
  }

  function TimeOf(tracks: seq<TrackInfo>, c: Chunk): int {
    if c.track < |tracks| && 1 <= c.id <= |tracks[c.track].times| then tracks[c.track].times[c.id - 1] else 0
  }

  predicate NoEarlier(tracks: seq<TrackInfo>, copied: seq<Chunk>, k: nat)
    requires 1 <= k < |copied|
  {
    TimeOf(tracks, copied[k - 1]) <= TimeOf(tracks, copied[k])
  }

  predicate Chronological(tracks: seq<TrackInfo>, copied: seq<Chunk>) {
    forall k {:trigger NoEarlier(tracks, copied, k)} :: 1 <= k < |copied| ==> NoEarlier(tracks, copied, k)
  }

  predicate Ordered(t: TrackInfo) {
    forall c, d :: 0 <= c < d < |t.times| ==> t.times[c] <= t.times[d]
  }

  predicate AllOrdered(tracks: seq<TrackInfo>) {
    forall i :: 0 <= i < |tracks| ==> Ordered(tracks[i])
  }

  /** The copy so far holds the first `ps[i]` chunks of each track, in order,
      and nothing else; each of them was usable. */
  ghost predicate Copying(tracks: seq<TrackInfo>, ps: seq<nat>, copied: seq<Chunk>) {
    && |ps| == |tracks| && |copied| == Sum(ps)
    && (forall i :: 0 <= i < |ps| ==> ps[i] <= |tracks[i].times| && Ids(copied, i) == FirstIds(ps[i]))
    && (forall i, c :: 0 <= i < |ps| && 0 <= c < ps[i] ==> Usable(tracks[i], c))
  }

  /** No chunk left is earlier than the last one copied. */
  ghost predicate Merged(tracks: seq<TrackInfo>, ps: seq<nat>, copied: seq<Chunk>)
    requires |ps| == |tracks|
  {
    && Chronological(tracks, copied)
    && (copied != [] ==> forall i :: 0 <= i < |ps| && ps[i] < |tracks[i].times| ==>
                           TimeOf(tracks, copied[|copied| - 1]) <= tracks[i].times[ps[i]])
  }

  lemma CopyingNext(tracks: seq<TrackInfo>, ps: seq<nat>, copied: seq<Chunk>, t: nat)
    requires Copying(tracks, ps, copied) && t < |tracks| && Ready(tracks, ps, t)
    ensures Copying(tracks, ps[t := ps[t] + 1], copied + [Chunk(t, ps[t] + 1)])
  {
    SumUpdate(ps, t);
    var ps', copied' := ps[t := ps[t] + 1], copied + [Chunk(t, ps[t] + 1)];
    forall i | 0 <= i < |ps|
      ensures Ids(copied', i) == FirstIds(ps'[i])
    {
      assert Ids(copied, i) == FirstIds(ps[i]);
      IdsNext(copied, Chunk(t, ps[t] + 1), i);
      FirstIdsNext(ps[i]);
    }
  }

  lemma IdsNext(copied: seq<Chunk>, c: Chunk, i: nat)
    ensures Ids(copied + [c], i) == if c.track == i then Ids(copied, i) + [c.id] else Ids(copied, i)
  {
    assert (copied + [c])[..|copied|] == copied;
    assert Ids(copied, i) + [] == Ids(copied, i);
  }

  lemma FirstIdsNext(n: nat)
    ensures FirstIds(n + 1) == FirstIds(n) + [n + 1]
  {}

  lemma MergedNext(tracks: seq<TrackInfo>, ps: seq<nat>, copied: seq<Chunk>, t: nat)
    requires Movie(tracks) && AllOrdered(tracks) && |ps| == |tracks|
    requires Merged(tracks, ps, copied) && Best(tracks, ps, |tracks|, t)
    ensures Merged(tracks, ps[t := ps[t] + 1], copied + [Chunk(t, ps[t] + 1)])
  {
    var ps', copied' := ps[t := ps[t] + 1], copied + [Chunk(t, ps[t] + 1)];
    var now := tracks[t].times[ps[t]];
    assert TimeOf(tracks, copied'[|copied|]) == now;
    forall k | 1 <= k < |copied'|
      ensures NoEarlier(tracks, copied', k)
    {
      if k < |copied| { assert NoEarlier(tracks, copied, k); }
    }
    forall i | 0 <= i < |ps| && ps'[i] < |tracks[i].times|
      ensures now <= tracks[i].times[ps'[i]]
    {
      if i == t {
        assert Ordered(tracks[t]);
      } else if Ready(tracks, ps, i) {
        assert TimeAt(tracks, ps, t) <= TimeAt(tracks, ps, i);
      }
    }
  }

  /** Copying the chosen chunk keeps all that is known of the copy. */
  lemma ChosenNext(tracks: seq<TrackInfo>, ps: seq<nat>, copied: seq<Chunk>, t: nat)
    requires Movie(tracks) && Copying(tracks, ps, copied) && Best(tracks, ps, |tracks|, t)
    requires AllOrdered(tracks) ==> Merged(tracks, ps, copied)
    ensures TurnOf(tracks, ps, t)
    ensures var ps', copied' := ps[t := ps[t] + 1], copied + [Chunk(t, ps[t] + 1)];
            && Copying(tracks, ps', copied') && (AllOrdered(tracks) ==> Merged(tracks, ps', copied'))
            && (InTurn(tracks, copied) ==> InTurn(tracks, copied'))
  {
    assert Chosen(tracks, ps, t);
    ChosenIffTurn(tracks, ps, t);
    CopyingNext(tracks, ps, copied, t);
    if AllOrdered(tracks) { MergedNext(tracks, ps, copied, t); }
    if InTurn(tracks, copied) { InTurnNext(tracks, ps, copied, t); }
  }

  /** How many chunks of a track are copied: those before the first that
      cannot be. */
  function Reach(t: TrackInfo, c: nat): (r: nat)
    requires c <= |t.times|
    ensures c <= r <= |t.times|
    ensures r < |t.times| ==> !Usable(t, r)
    ensures forall d :: c <= d < r ==> Usable(t, d)
    decreases |t.times| - c
  {
    if c < |t.times| && Usable(t, c) then Reach(t, c + 1) else c
  }

  /** When no track has a chunk to offer, each has been copied as far as it can
      be. */
  lemma CopiedAsFarAsPossible(tracks: seq<TrackInfo>, ps: seq<nat>, copied: seq<Chunk>, i: nat)
    requires Copying(tracks, ps, copied) && i < |tracks| && !Ready(tracks, ps, i)
    ensures ps[i] == Reach(tracks[i], 0)
  {
    assert forall c :: 0 <= c < ps[i] ==> Usable(tracks[i], c);
  }

  function Lengths(tracks: seq<TrackInfo>): (ns: seq<nat>)
    ensures |ns| == |tracks| && forall i :: 0 <= i < |tracks| ==> ns[i] == |tracks[i].times|
  {
    seq(|tracks|, i requires 0 <= i < |tracks| => |tracks[i].times|)
  }

  predicate AllUsable(tracks: seq<TrackInfo>) {
    forall i, c :: 0 <= i < |tracks| && 0 <= c < |tracks[i].times| ==> Usable(tracks[i], c)
  }

  /** Every chunk is copied exactly when none is unusable. */
  lemma AllCopiedIff(tracks: seq<TrackInfo>, ps: seq<nat>, copied: seq<Chunk>)
    requires Copying(tracks, ps, copied) && forall i :: 0 <= i < |tracks| ==> !Ready(tracks, ps, i)
    ensures |copied| <= Sum(Lengths(tracks))
    ensures |copied| == Sum(Lengths(tracks)) <==> AllUsable(tracks)
  {
    SumBounded(ps, Lengths(tracks));
    if AllUsable(tracks) {
      forall i | 0 <= i < |tracks|
        ensures ps[i] == |tracks[i].times|
      {
        CopiedAsFarAsPossible(tracks, ps, copied, i);
      }
      assert ps == Lengths(tracks);
    }
  }

  /** A chunk with the invalid time keeps its track from being copied. */
  lemma InvalidTimeBlocks() returns (tracks: seq<TrackInfo>)
    ensures Movie(tracks) && |tracks| == 1 && |tracks[0].times| == 2
    ensures !AllUsable(tracks) && Reach(tracks[0], 0) == 1
  {
    var t := TrackInfo([0, INVALID_TIME], false);
    tracks := [t];
    assert !Usable(tracks[0], 1);
    assert Reach(t, 1) == 1;
  }

  /** What the table of tracks says while the scan looks at track `n`. */
  ghost predicate Scanned(tracks: seq<TrackInfo>, ps: seq<nat>, n: nat, nextTrack: int, nextTime: int)
    requires n <= |tracks| == |ps|
  {
    if nextTrack == -1 then
      nextTime == INVALID_TIME && forall j :: 0 <= j < n ==> !Ready(tracks, ps, j)
    else
      nextTrack >= 0 && Best(tracks, ps, n, nextTrack) && nextTime == TimeAt(tracks, ps, nextTrack)
  }

  lemma ScanNext(tracks: seq<TrackInfo>, ps: seq<nat>, i: nat, nextTrack: int, nextTime: int)
    requires Movie(tracks) && i < |tracks| == |ps| && Scanned(tracks, ps, i, nextTrack, nextTime)
    ensures var skip := ps[i] >= |tracks[i].times| || TimeAt(tracks, ps, i) > nextTime
                        || (TimeAt(tracks, ps, i) == nextTime && !tracks[i].hint);
            if skip then Scanned(tracks, ps, i + 1, nextTrack, nextTime)
            else Scanned(tracks, ps, i + 1, i, TimeAt(tracks, ps, i))
  {}

  function Done(info: ChunkInfo): nat {
    if info.current >= 1 then info.current - 1 else 0
  }

  /** How many chunks of each track are copied. */
  function ProgressOf(state: seq<ChunkInfo>): (ps: seq<nat>)
    ensures |ps| == |state| && forall i :: 0 <= i < |ps| ==> ps[i] == Done(state[i])
  {
    seq(|state|, i requires 0 <= i < |state| => Done(state[i]))
  }

  class FileCopy {
    const tracks: seq<TrackInfo>
    var state: seq<ChunkInfo>
    var nchunks: nat
    /** The chunks in the destination file. */
    var copied: seq<Chunk>

    constructor (tracks: seq<TrackInfo>)
      requires Movie(tracks)
      ensures Valid() && this.tracks == tracks && copied == []
      ensures nchunks == Sum(Lengths(tracks))
      ensures forall i :: 0 <= i < |tracks| ==> Progress()[i] == 0
    {
      this.tracks := tracks;
      copied := [];
      var infos, n := [], 0;
      for i := 0 to |tracks|
        invariant |infos| == i && n == Sum(Lengths(tracks)[..i])
        invariant forall k :: 0 <= k < i ==> infos[k] == ChunkInfo(1, |tracks[k].times|, INVALID_TIME)
      {
        assert Lengths(tracks)[..i + 1][..i] == Lengths(tracks)[..i];
        infos := infos + [ChunkInfo(1, |tracks[i].times|, INVALID_TIME)];
        n := n + |tracks[i].times|;
      }
      assert Lengths(tracks)[..|tracks|] == Lengths(tracks);
      state, nchunks := infos, n;
      new;
      NothingCopied(Progress());
    }

    ghost function Progress(): (ps: seq<nat>)
      reads this`state
      ensures |ps| == |state| && forall i :: 0 <= i < |ps| ==> ps[i] == Done(state[i])
    {
      ProgressOf(state)
    }

    /** Cached times are those the track would give again. */
    ghost predicate Valid()
      reads this`state, this`copied
    {
      && Movie(tracks) && Cached()
      && Copying(tracks, Progress(), copied)
      && (AllOrdered(tracks) ==> Merged(tracks, Progress(), copied))
    }

    ghost predicate Cached()
      reads this`state
    {
      && |state| == |tracks|
      && forall i {:trigger state[i]} :: 0 <= i < |state| ==>
           && 1 <= state[i].current && state[i].final == |tracks[i].times|
           && (state[i].time == INVALID_TIME
               || (state[i].current <= state[i].final && state[i].time == tracks[i].times[state[i].current - 1]))
    }

    /** Chooses the track that is to give the next chunk. */
    method ChooseTrack() returns (nextTrack: int)
      requires Movie(tracks) && Cached()
      modifies this`state
      ensures Cached() && Progress() == old(Progress())
      ensures if nextTrack == -1 then forall i :: 0 <= i < |tracks| ==> !Ready(tracks, Progress(), i)
              else nextTrack >= 0 && Best(tracks, Progress(), |tracks|, nextTrack)
    {
      ghost var ps := Progress();
      nextTrack := -1;
      var nextTime := INVALID_TIME;
      for i := 0 to |tracks|
        invariant Cached() && Progress() == ps
        invariant Scanned(tracks, ps, i, nextTrack, nextTime)
      {
        ScanNext(tracks, ps, i, nextTrack, nextTime);
        if state[i].current > state[i].final {
          continue;
        }
        CacheTime(i);
        if state[i].time > nextTime {
          continue;
        }
        if state[i].time == nextTime && !tracks[i].hint {
          continue;
        }
        nextTime := state[i].time;
        nextTrack := i;
      }
    }

    method CacheTime(i: nat)
      requires Cached() && i < |state| && state[i].current <= state[i].final
      modifies this`state
      ensures Cached() && Progress() == old(Progress())
      ensures state[i].time == TimeAt(tracks, Progress(), i)
    {
      if state[i].time == INVALID_TIME {
        var time := tracks[i].times[state[i].current - 1];
        state := state[i := state[i].(time := time)];
      }
      assert Progress() == old(Progress());
    }

    /** Copies one chunk, if there is one to copy: that of track `t`. */
    method CopyNextChunk() returns (more: bool, ghost t: nat)
      requires Valid()
      modifies this`state, this`copied
      ensures Valid()
      ensures !more ==> copied == old(copied) && forall i :: 0 <= i < |tracks| ==> !Ready(tracks, Progress(), i)
      ensures more ==> TurnOf(tracks, old(Progress()), t) && copied == old(copied) + [Chunk(t, old(Progress())[t] + 1)]
      ensures old(InTurn(tracks, copied)) ==> InTurn(tracks, copied)
    {
      ghost var ps, before := Progress(), copied;
      var nextTrack := ChooseTrack();
      if nextTrack == -1 {
        return false, 0;
      }
      more, t := true, nextTrack;
      ChosenNext(tracks, ps, before, t);
      CopyFrom(nextTrack);
      assert Progress() == ps[t := ps[t] + 1] && copied == before + [Chunk(t, ps[t] + 1)];
    }

    method CopyFrom(t: nat)
      requires Cached() && t < |state| && state[t].current <= state[t].final
      modifies this`state, this`copied
      ensures Cached() && Progress() == old(Progress())[t := old(Progress())[t] + 1]
      ensures copied == old(copied) + [Chunk(t, old(Progress())[t] + 1)]
    {
      copied := copied + [Chunk(t, state[t].current)];
      state := state[t := state[t].(current := state[t].current + 1, time := INVALID_TIME)];
    }
  }

  lemma {:induction false} NothingCopied(ps: seq<nat>)
    requires forall i :: 0 <= i < |ps| ==> ps[i] == 0
    ensures Sum(ps) == 0
  {
    if ps != [] { NothingCopied(ps[..|ps| - 1]); }
  }

  /** The caller's loop over a whole movie: every track's chunks are copied once
      and in order, up to the first that cannot be, each in its turn, and chunks
      leave in the order of time if they do so within each track. */
  method CopyAll(copy: FileCopy) returns (calls: nat)
    requires copy.Valid() && copy.copied == []
    modifies copy
    ensures calls == |copy.copied|
    ensures forall i :: 0 <= i < |copy.tracks| ==> Ids(copy.copied, i) == FirstIds(Reach(copy.tracks[i], 0))
    ensures calls == Sum(Lengths(copy.tracks)) <==> AllUsable(copy.tracks)
    ensures AllOrdered(copy.tracks) ==> Chronological(copy.tracks, copy.copied)
    ensures InTurn(copy.tracks, copy.copied)
  {
    calls := 0;
    ghost var all := Sum(Lengths(copy.tracks));
    SumBounded(copy.Progress(), Lengths(copy.tracks));
    while true
      invariant copy.Valid() && calls == |copy.copied| <= all && InTurn(copy.tracks, copy.copied)
      decreases all - calls
    {
      var more, _ := copy.CopyNextChunk();
      if !more {
        break;
      }
      calls := calls + 1;
      SumBounded(copy.Progress(), Lengths(copy.tracks));
    }
    AllCopiedIff(copy.tracks, copy.Progress(), copy.copied);
    forall i | 0 <= i < |copy.tracks|
      ensures Ids(copy.copied, i) == FirstIds(Reach(copy.tracks[i], 0))
    {
      CopiedAsFarAsPossible(copy.tracks, copy.Progress(), copy.copied, i);
    }
  }
}
