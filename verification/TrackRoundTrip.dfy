/** What the tables written for a track give when they are loaded again
    (LoadDTS, LoadCTS, UpdateStts and UpdateCtts in src/mp4trackx.cpp). */
module TrackRoundTrip {
  import opened Wrappers
  import opened RunTables
  import opened TimeBend
  import opened SampleOrder
  import opened TrackEditing

  /** Every difference between decoding times is a 32-bit number, and
      decoding starts at 0. */
  ghost predicate DecodingFits(st: seq<SampleTime>) {
    && (st != [] ==> st[0].dts == 0)
    && forall i :: 0 <= i < |st| - 1 ==> 0 <= st[i + 1].dts - st[i].dts < TWO32
  }

  ghost predicate CompositionFits(st: seq<SampleTime>) {
    forall i :: 0 <= i < |st| - 1 ==> INT_MIN <= st[i].cts - st[i].dts < -INT_MIN
  }

  /** The times of the real samples. */
  ghost predicate SameSamples(st: seq<SampleTime>, st': seq<SampleTime>) {
    |st| == |st'| && forall i :: 0 <= i < |st| - 1 ==> st[i] == st'[i]
  }

  /** Decoding times are restored exactly when their differences fit. */
  lemma DecodingRestored(st: seq<SampleTime>, stts: seq<Run>, ctts: Option<seq<Run>>, st': seq<SampleTime>)
    requires st != [] && Expand(stts) == Words(DecodeDeltas(st)) && Loaded(st', stts, ctts)
    ensures DtsOf(st') == DtsOf(st) <==> DecodingFits(st)
  {
    var ts := DtsOf(st);
    if st[0].dts == 0 {
      assert ts[0 := 0] == ts;
      DecodeRoundTrip(ts, stts);
      FitsByDeltas(st);
    } else {
      assert DtsOf(st')[0] == 0 && ts[0] != 0;
    }
  }

  lemma FitsByDeltas(st: seq<SampleTime>)
    requires st != [] && st[0].dts == 0
    ensures DecodingFits(st) <==> forall i :: 0 <= i < |st| - 1 ==> 0 <= Deltas(DtsOf(st))[i] < TWO32
  {
    var ds := Deltas(DtsOf(st));
    assert forall i :: 0 <= i < |ds| ==> ds[i] == st[i + 1].dts - st[i].dts;
  }

  /** What a track without composition offsets keeps: only samples composed
      when they decode. */
  ghost predicate Undelayed(st: seq<SampleTime>) {
    forall i :: 0 <= i < |st| - 1 ==> st[i].cts == st[i].dts
  }

  /** The tables can be written, and every number fits the field it is written
      to. */
  ghost predicate Storable(st: seq<SampleTime>, ctts: Option<seq<Run>>) {
    Countable(st, ctts) && DecodingFits(st) && if ctts.Some? then CompositionFits(st) else Undelayed(st)
  }

  /** Loading gives the samples back: all decoding times, and the composition
      times of the real ones. */
  ghost predicate Restored(st: seq<SampleTime>, st': seq<SampleTime>) {
    DtsOf(st') == DtsOf(st) && SameSamples(st, st')
  }

  /** Tables that were written restore the samples exactly when every number
      fits its field. */
  lemma TablesRestore(st: seq<SampleTime>, was: Option<seq<Run>>, stts: seq<Run>, ctts: Option<seq<Run>>, st': seq<SampleTime>)
    requires st != [] && Written(st, was, stts, ctts) && Loaded(st', stts, ctts)
    ensures Restored(st, st') <==> DecodingFits(st) && if was.Some? then CompositionFits(st) else Undelayed(st)
  {
    DecodingRestored(st, stts, ctts, st');
    if DecodingFits(st) {
      assert forall i :: 0 <= i < |st| ==> DtsOf(st')[i] == DtsOf(st)[i];
      CompositionRestored(st, was, stts, ctts, st');
    }
  }

  lemma CompositionRestored(st: seq<SampleTime>, was: Option<seq<Run>>, stts: seq<Run>, ctts: Option<seq<Run>>, st': seq<SampleTime>)
    requires st != [] && Written(st, was, stts, ctts) && Loaded(st', stts, ctts)
    requires |st'| == |st| && forall i :: 0 <= i < |st| ==> st'[i].dts == st[i].dts
    ensures SameSamples(st, st') <==> if was.Some? then CompositionFits(st) else Undelayed(st)
  {
    var xs := CompositionOffsets(st);
    forall i | 0 <= i < |xs|
      ensures st'[i] == st[i] <==> if was.Some? then INT_MIN <= st[i].cts - st[i].dts < -INT_MIN else st[i].cts == st[i].dts
    {
      WordIdentity(xs[i]);
      if ctts.Some? { assert Expand(ctts.value)[i] == Int32(xs[i]); }
    }
    if SameSamples(st, st') {
      assert forall i :: 0 <= i < |xs| ==> st[i] == st'[i];
    }
  }

  /** Saving a track and loading it again: it comes back exactly when its first
      values can be counted and all its numbers fit their fields. */
  method SaveAndLoad(editor: TrackEditor) returns (ok: bool, again: TrackEditor?)
    requires editor.Valid() && (editor.track.ctts.Some? ==> |editor.sampleTimes| >= 2)
    modifies editor.track
    ensures editor.sampleTimes == old(editor.sampleTimes)
    ensures ok <==> Countable(editor.sampleTimes, old(editor.track.ctts))
    ensures ok <==> again != null
    ensures ok && Restored(editor.sampleTimes, again.sampleTimes) <==> Storable(editor.sampleTimes, old(editor.track.ctts))
  {
    again := null;
    ghost var st, was := editor.sampleTimes, editor.track.ctts;
    ok := editor.UpdateTables();
    if ok {
      again := Reload(editor.track, st, was);
    }
  }

  method Reload(track: Track, ghost st: seq<SampleTime>, ghost was: Option<seq<Run>>) returns (again: TrackEditor)
    requires st != [] && Written(st, was, track.stts, track.ctts) && (was.Some? ==> |st| >= 2)
    ensures Restored(st, again.sampleTimes) <==> DecodingFits(st) && if was.Some? then CompositionFits(st) else Undelayed(st)
  {
    again := new TrackEditor(track);
    TablesRestore(st, was, track.stts, track.ctts, again.sampleTimes);
  }

  /** Every number of this track fits, but its first difference is the one the
      loop starts with: no table can be written. */
  lemma FirstDifferenceIsLost() returns (st: seq<SampleTime>)
    ensures |st| == 2 && st[0] == SampleTime(0, 0) && st[1] == SampleTime(0xFFFF_FFFF, 0xFFFF_FFFF)
    ensures DecodingFits(st) && CompositionFits(st) && !Countable(st, None)
  {
    st := [SampleTime(0, 0), SampleTime(0xFFFF_FFFF, 0xFFFF_FFFF)];
  }

  /** The same for a first composition offset of the least 32-bit integer. */
  lemma FirstOffsetIsLost(runs: seq<Run>) returns (st: seq<SampleTime>)
    ensures |st| == 2 && st[0] == SampleTime(0, INT_MIN) && st[1] == SampleTime(1, 1)
    ensures DecodingFits(st) && CompositionFits(st) && !Countable(st, Some(runs)) && Countable(st, None)
  {
    st := [SampleTime(0, INT_MIN), SampleTime(1, 1)];
  }

  /** An offset of 2^31 is the same word, without being negative: it neither
      fits nor can be written. */
  lemma LateOffsetIsLost(runs: seq<Run>) returns (st: seq<SampleTime>)
    ensures |st| == 2 && st[0] == SampleTime(0, -INT_MIN) && st[1] == SampleTime(1, 1 - INT_MIN)
    ensures DecodingFits(st) && !CompositionFits(st) && !Countable(st, Some(runs)) && Countable(st, None)
  {
    st := [SampleTime(0, -INT_MIN), SampleTime(1, 1 - INT_MIN)];
    assert st[0].cts - st[0].dts == -INT_MIN;
  }

  lemma {:induction false} SumsGrow(ds: seq<int>, i: nat, j: nat)
    requires i <= j <= |ds| && forall k :: 0 <= k < |ds| ==> ds[k] >= 0
    ensures Sums(ds)[i] <= Sums(ds)[j]
    decreases j - i
  {
    if i < j {
      SumsStep(ds, i);
      SumsGrow(ds, i + 1, j);
    }
  }

  /** The entry that keeps the last sample's duration comes last in
      composition order, if that duration is positive. */
  lemma SentinelIsLast(st: seq<SampleTime>, stts: seq<Run>, ctts: Option<seq<Run>>, idx: seq<nat>)
    requires |st| >= 2 && Loaded(st, stts, ctts) && IsPermutation(idx, |st|) && NonDecreasing(CtsOf(st, idx))
    requires forall i :: 0 <= i < |Expand(stts)| ==> 0 <= Expand(stts)[i] < TWO32
    requires st[|st| - 2].dts < st[|st| - 1].dts
    ensures idx[|st| - 1] == |st| - 1
  {
    var n, ds := |st| - 1, Expand(stts);
    SumsStep(ds, n - 1);
    assert DtsOf(st)[n] == st[n].dts && DtsOf(st)[n - 1] == st[n - 1].dts;
    WordIdentity(ds[n - 1]);
    forall i | 0 <= i < n
      ensures st[i].cts < st[n].cts
    {
      if ctts == None {
        SumsGrow(ds, i, n - 1);
        assert DtsOf(st)[i] == st[i].dts;
      }
    }
    LatestIsLast(st, idx);
  }
}
