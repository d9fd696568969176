/** The editor of one track's sample times (`TrackEditor` in
    src/mp4trackx.cpp and src/mp4trackx.h). */
module TrackEditing {
  import Numbers
  import opened Wrappers
  import opened RunTables
  import opened TimeBend
  import opened SampleOrder
  import opened FrameRates
  import opened FrameTimes

  /** An entry of an edit list. */
  datatype Edit = Edit(mediaTime: int, duration: nat)

  /** The tables of the track in the file, and the duration in its header, which
      nothing here changes: new media times change the media's duration only. */
  class Track {
    const duration: nat
    var timeScale: nat
    var stts: seq<Run>
    var ctts: Option<seq<Run>>
    var edits: seq<Edit>
    var mediaDuration: int

    constructor (duration: nat, timeScale: nat, stts: seq<Run>, ctts: Option<seq<Run>>, edits: seq<Edit>, mediaDuration: int)
      ensures this.duration == duration && this.timeScale == timeScale && this.stts == stts && this.ctts == ctts
      ensures this.edits == edits && this.mediaDuration == mediaDuration
    {
      this.duration, this.timeScale, this.stts, this.ctts, this.edits := duration, timeScale, stts, ctts, edits;
      this.mediaDuration := mediaDuration;
    }

    /** Replaces the edit list; without an edit, presentation starts at 0. */
    method UpdateElst(mediaTime: int)
      modifies this`edits
      ensures edits == EditsAt(mediaTime, duration)
    {
      for i := |edits| downto 0
        invariant |edits| == i
      {
        edits := edits[..i] + edits[i + 1..];
      }
      if mediaTime != 0 {
        edits := edits + [Edit(mediaTime, duration)];
      }
    }
  }

  /** The edit list that makes presentation start at `mediaTime`; empty for 0. */
  function EditsAt(mediaTime: int, duration: nat): seq<Edit> {
    if mediaTime != 0 then [Edit(mediaTime, duration)] else []
  }

  /** `d` units are `ms` milliseconds at a time scale, cut towards zero. */
  predicate Milliseconds(d: int, ms: int, scale: nat) {
    if ms >= 0 then 1000 * d <= ms * scale < 1000 * d + 1000 else 1000 * d - 1000 < ms * scale <= 1000 * d
  }

  /** Whose time codes: the samples' decoding times in decoding order, or
      their composition times in composition order. */
  datatype Axis = Decode | Compose

  /** `d` is the least delay of composition that puts no sample's decoding
      after its composition. */
  ghost predicate LeastDelay(st: seq<SampleTime>, d: int) {
    && d >= 0
    && (forall i :: 0 <= i < |st| ==> st[i].dts - st[i].cts <= d)
    && (d > 0 ==> exists i :: 0 <= i < |st| && st[i].dts - st[i].cts == d)
  }

  /** What loading the tables gives: decoding times, composition offsets, and
      one more entry that keeps the last sample's duration. */
  ghost predicate Loaded(st: seq<SampleTime>, stts: seq<Run>, ctts: Option<seq<Run>>) {
    && DtsOf(st) == Sums(Expand(stts))
    && match ctts
       case None => forall i :: 0 <= i < |st| ==> st[i].cts == st[i].dts
       case Some(runs) =>
         var n := |st| - 1;
         && |Expand(runs)| == n >= 1
         && (forall i :: 0 <= i < n ==> st[i].cts == st[i].dts + Expand(runs)[i])
         && IsLatest(st, n, st[n].cts - Uint32(st[n].dts - st[n - 1].dts))
  }

  /** The latest composition time of the first `n` samples, or 0. */
  ghost predicate IsLatest(st: seq<SampleTime>, n: nat, m: int)
    requires n <= |st|
  {
    m >= 0 && (forall i :: 0 <= i < n ==> st[i].cts <= m) && (m > 0 ==> exists i :: 0 <= i < n && st[i].cts == m)
  }

  /** Three samples, the second composed last: the entry behind them follows it
      after the last sample's duration. */
  lemma LoadedThree(st: seq<SampleTime>)
    requires Loaded(st, [Run(2, 1000), Run(1, 600)], Some([Run(1, 500), Run(1, 2000), Run(1, 500)]))
    ensures st == [SampleTime(0, 500), SampleTime(1000, 3000), SampleTime(2000, 2500), SampleTime(2600, 3600)]
  {
    var stts, ctts := [Run(2, 1000), Run(1, 600)], [Run(1, 500), Run(1, 2000), Run(1, 500)];
    assert stts[..1] == [Run(2, 1000)] && stts[..1][..0] == [];
    assert Expand(stts[..1]) == [] + Copies(1000, 2);
    assert Expand(stts) == [1000, 1000, 600];
    assert ctts[..2] == [Run(1, 500), Run(1, 2000)] && ctts[..2][..1] == [Run(1, 500)] && ctts[..2][..1][..0] == [];
    assert Expand(ctts[..2][..1]) == [500];
    assert Expand(ctts[..2]) == [500, 2000];
    assert Expand(ctts) == [500, 2000, 500];
    SumsStep(Expand(stts), 0);
    SumsStep(Expand(stts), 1);
    SumsStep(Expand(stts), 2);
    assert DtsOf(st) == [0, 1000, 2000, 2600];
    assert forall i :: 0 <= i < 4 ==> st[i].dts == DtsOf(st)[i];
    assert st[2].dts == 2000 && st[3].dts == 2600 && Uint32(600) == 600;
  }

  /** The samples read so far, and the decoding time of the next. */
  ghost predicate DtsLoaded(st: seq<SampleTime>, dts: int, deltas: seq<int>) {
    DtsOf(st) + [dts] == Sums(deltas) && forall k :: 0 <= k < |st| ==> st[k].cts == st[k].dts
  }

  lemma LoadSample(st: seq<SampleTime>, dts: int, deltas: seq<int>, delta: int)
    requires DtsLoaded(st, dts, deltas)
    ensures DtsLoaded(st + [SampleTime(dts, dts)], dts + delta, deltas + [delta])
    ensures DtsOf(st + [SampleTime(dts, dts)]) == Sums(deltas)
    ensures forall k :: 0 <= k <= |st| ==> (st + [SampleTime(dts, dts)])[k].cts == (st + [SampleTime(dts, dts)])[k].dts
  {
    assert DtsOf(st + [SampleTime(dts, dts)]) == DtsOf(st) + [dts];
    assert Sums(deltas)[|deltas|] == dts;
    SumsSnoc(deltas, delta);
  }

  /** The composition times of the first `n` samples are set. */
  ghost predicate CtsLoaded(was: seq<SampleTime>, st: seq<SampleTime>, offsets: seq<int>, n: nat, maxCts: int)
    requires n <= |offsets|
  {
    && |st| == |was| == |offsets| + 1
    && (forall k :: 0 <= k < |was| ==> st[k].dts == was[k].dts)
    && (forall k :: 0 <= k < n ==> st[k].cts == was[k].dts + offsets[k])
    && IsLatest(st, n, maxCts)
  }

  ghost predicate CompressedTo(ts: seq<int>, us: seq<int>, offset: int) {
    |ts| >= 2 && offset + ts[1] > 0 && exists b :: Compressed(ts, us, offset, b)
  }

  ghost predicate DelayedTo(ts: seq<int>, us: seq<int>, offset: int) {
    |ts| >= 2 && offset >= 0 && ts[1] > 0 && exists b :: Delayed(ts, us, offset, b)
  }

  /** The same times counted from the first of them. */
  function FromZero(ts: seq<int>): (us: seq<int>)
    requires ts != []
    ensures |us| == |ts| && us[0] == 0
  {
    Shifted(ts, 0, -ts[0])
  }

  /** What the first half of the adjustment does to the decoding times `ds` and
      the composition times `cs`, by the audio delay's sign and its units. */
  ghost predicate Prepared(ds: seq<int>, cs: seq<int>, ds': seq<int>, cs': seq<int>, bend: bool, audioDelay: int, units: int)
    requires cs != []
  {
    if !bend || audioDelay == 0 then
      ds' == ds && cs' == FromZero(cs)
    else if audioDelay > 0 then
      ds' == ds && CompressedTo(FromZero(cs), cs', units)
    else
      DelayedTo(ds, ds', -units) && exists es :: es != [] && DelayedTo(cs, es, -units) && cs' == FromZero(es)
  }

  /** Decoding times can be compressed by the delay the samples need: the
      second time or the delay is positive. */
  predicate Squeezable(st: seq<SampleTime>) {
    |st| >= 2 && (st[1].dts > 0 || exists i :: 0 <= i < |st| && st[i].dts - st[i].cts + st[1].dts > 0)
  }

  /** Composition times half-way, if they are not delayed. */
  function Halfway(cs: seq<int>, squeezed: bool, units: int): (hs: seq<int>)
    requires cs != [] && (squeezed ==> |cs| >= 2 && units + cs[1] - cs[0] > 0)
    ensures |hs| == |cs|
  {
    if squeezed then Compress(FromZero(cs), units) else FromZero(cs)
  }

  /** Some sample decodes later than it is composed at these times, listed in
      composition order, by more than the second decoding time falls short. */
  predicate Late(st: seq<SampleTime>, idx: seq<nat>, hs: seq<int>)
    requires |st| >= 2 && |hs| == |idx| == |st| && IsPermutation(idx, |st|)
  {
    exists k :: 0 <= k < |idx| && st[idx[k]].dts - hs[k] + st[1].dts > 0
  }

  lemma LateIsSqueezable(st: seq<SampleTime>, mid: seq<SampleTime>, idx: seq<nat>, hs: seq<int>)
    requires |mid| == |st| >= 2 && |hs| == |idx| == |st| && IsPermutation(idx, |st|) && Late(st, idx, hs)
    requires DtsOf(mid) == DtsOf(st) && CtsOf(mid, idx) == hs
    ensures Squeezable(mid)
  {
    var k :| 0 <= k < |idx| && st[idx[k]].dts - hs[k] + st[1].dts > 0;
    assert DtsOf(mid)[idx[k]] == DtsOf(st)[idx[k]] && DtsOf(mid)[1] == DtsOf(st)[1];
    assert mid[idx[k]].dts - mid[idx[k]].cts + mid[1].dts > 0;
  }

  lemma HalfwayIs(ds: seq<int>, cs: seq<int>, ds': seq<int>, cs': seq<int>, bend: bool, audioDelay: int, units: int)
    requires cs != [] && Prepared(ds, cs, ds', cs', bend, audioDelay, units) && (bend ==> audioDelay >= 0)
    requires bend && audioDelay > 0 ==> |cs| >= 2 && units + cs[1] - cs[0] > 0
    ensures ds' == ds && cs' == Halfway(cs, bend && audioDelay > 0, units)
  {
    if bend && audioDelay > 0 {
      var b :| Compressed(FromZero(cs), cs', units, b);
      CompressedIs(FromZero(cs), cs', units, b);
    }
  }

  /** Every sample is composed `delay` later than half-way and decodes no
      later than that, and no smaller delay would do. */
  ghost predicate Settled(mid: seq<SampleTime>, st: seq<SampleTime>, delay: int) {
    && |st| == |mid| && delay >= 0
    && (forall i :: 0 <= i < |st| ==> st[i].cts == mid[i].cts + delay)
    && (forall i :: 0 <= i < |st| ==> st[i].dts <= st[i].cts)
    && (delay > 0 ==> exists i :: 0 <= i < |st| && st[i].dts == st[i].cts)
  }

  lemma SettleAll(mid: seq<SampleTime>, st: seq<SampleTime>, st': seq<SampleTime>, delay: int)
    requires |mid| == |st| == |st'| && LeastDelay(st, delay)
    requires forall i :: 0 <= i < |st| ==> mid[i].cts == st[i].cts
    requires forall i :: 0 <= i < |st| ==> st'[i] == SampleTime(st[i].dts, st[i].cts + delay)
    ensures Settled(mid, st', delay)
  {}

  /** Equal composition times in composition order are equal sample by sample. */
  lemma SameCts(st: seq<SampleTime>, st': seq<SampleTime>, idx: seq<nat>)
    requires |st| == |st'| && IsPermutation(idx, |st|) && CtsOf(st, idx) == CtsOf(st', idx)
    ensures forall i :: 0 <= i < |st| ==> st[i].cts == st'[i].cts
  {
    forall i | 0 <= i < |st|
      ensures st[i].cts == st'[i].cts
    {
      var k := PermutationCovers(idx, |st|, i);
      assert CtsOf(st, idx)[k] == CtsOf(st', idx)[k];
    }
  }

  lemma CompressedFirst(ts: seq<int>, us: seq<int>, offset: int)
    requires CompressedTo(ts, us, offset)
    ensures |us| == |ts| && us[0] == ts[0]
  {}

  /** The rounded exact duration of the movie. */
  function Duration(scale: int, ranges: seq<FpsRange>): int
    requires Rates(ranges)
  {
    Round(Offsets(scale, ranges)[TotalFrames(ranges)])
  }

  /** At ten units a second the duration is a 31-bit number. */
  predicate TenUnitsFit(ranges: seq<FpsRange>)
    requires Rates(ranges)
  {
    Scaled(10, Seconds(ranges)) <= INT_MAX
  }

  /** The scale at which a duration that is too long would be the largest
      31-bit number; the fallback is sought below it. */
  function Limit(ranges: seq<FpsRange>, first: nat): real
    requires Rates(ranges) && Duration(first, ranges) > INT_MAX
  {
    (first * INT_MAX) as real / Duration(first, ranges) as real
  }

  /** A limit is below the scale it is computed from, so the search for it ends
      unless that scale is out of the reach of powers of ten. */
  lemma LimitIsLower(ranges: seq<FpsRange>, first: nat)
    requires Rates(ranges) && Duration(first, ranges) > INT_MAX
    ensures Limit(ranges, first) <= first as real
  {
    RealOfProduct(first, INT_MAX);
    LimitBelow(first as real, INT_MAX as real, Duration(first, ranges) as real);
  }

  lemma LimitBelow(s: real, m: real, d: real)
    requires s >= 0.0 && 0.0 < m < d
    ensures s * m / d <= s
  {
    QuotientCompare(s * m, d, s);
    if s > 0.0 { RealPositive(s, d - m); }
    assert s * (d - m) == s * d - s * m;
  }

  /** A duration over 31 bits is measured at the scale the search finds: up to a
      limit of 10^9 the largest power of ten below it, but at least 10. It then
      fits exactly when it does at 10. */
  ghost predicate Fallback(ranges: seq<FpsRange>, first: nat, scale: nat)
    requires Rates(ranges) && Duration(first, ranges) > INT_MAX
  {
    && Found(Limit(ranges, first), scale)
    && (scale != 0 ==> (Duration(scale, ranges) <= INT_MAX <==> TenUnitsFit(ranges)))
    && (first <= LARGEST_TEN ==> scale != 0)
  }

  /** The scale tried first is kept, unless it is free to change and makes the
      duration too long. */
  ghost predicate Fitted(ranges: seq<FpsRange>, free: bool, first: nat, scale: nat)
    requires Rates(ranges)
  {
    if free && Duration(first, ranges) > INT_MAX then Fallback(ranges, first, scale) else scale == first
  }

  /** The scale asked for, the one in use, or the automatic one. */
  predicate Chosen(ranges: seq<FpsRange>, requested: int, was: nat, scale: nat)
    requires Rates(ranges)
  {
    if requested > 0 then scale == requested
    else if requested < 0 then scale == was
    else scale == AutoScale(ranges)
  }

  lemma FallbackHolds(ranges: seq<FpsRange>, first: nat, scale: nat)
    requires Rates(ranges) && Duration(first, ranges) > INT_MAX && Found(Limit(ranges, first), scale)
    ensures Fallback(ranges, first, scale)
  {
    LimitIsLower(ranges, first);
    DurationIsScaled(scale, ranges);
    if scale > 10 {
      FallbackFits(ranges, first, Limit(ranges, first), scale);
      SecondsNonNegative(ranges);
      TimesAdd(10, scale - 10, Seconds(ranges));
      TimesBounds(scale - 10, Seconds(ranges));
    }
  }

  /** Three frames of nearly half a second, at two thousand million units a
      second: the search goes past 10^9 and ends with no power of ten. */
  lemma FallbackWraps() returns (ranges: seq<FpsRange>, first: nat, scale: nat)
    ensures ranges == [FpsRange(3, 2_000_000_001, 1_000_000_001)] && first == 2_000_000_001 && scale == 356_758_732
    ensures Rates(ranges) && Chosen(ranges, 0, 0, first) && Duration(first, ranges) == 3_000_000_003
    ensures Fallback(ranges, first, scale) && Duration(scale, ranges) <= INT_MAX
  {
    first, scale := 2_000_000_001, 356_758_732;
    var r := FpsRange(3, 2_000_000_001, 1_000_000_001);
    ranges := [r];
    HalfSecondRate(r);
    assert ranges[..0] == [];
    assert CommonScale(ranges) == Numbers.Lcm(r.num, CommonScale([])) == first && MinDenom(ranges) == r.denom;
    AutoScaleExact(ranges);
    HalfSeconds(ranges);
    FarLimit(Limit(ranges, first));
    FallbackHolds(ranges, first, scale);
  }

  lemma HalfSecondRate(r: FpsRange)
    requires r == FpsRange(3, 2_000_000_001, 1_000_000_001)
    ensures Reduced(r) == r && Numbers.Lcm(r.num, 1) == r.num
  {
    assert Numbers.Gcd(1_000_000_000, 1) == Numbers.Gcd(1, 0) == 1;
    assert Numbers.Gcd(1_000_000_001, 1_000_000_000) == Numbers.Gcd(1_000_000_000, 1);
    assert Numbers.Gcd(2_000_000_001, 1_000_000_001) == Numbers.Gcd(1_000_000_001, 1_000_000_000);
    assert Numbers.Gcd(2_000_000_001, 1) == Numbers.Gcd(1, 0);
  }

  lemma HalfSeconds(ranges: seq<FpsRange>)
    requires Rates(ranges) && ranges == [FpsRange(3, 2_000_000_001, 1_000_000_001)]
    ensures Duration(2_000_000_001, ranges) == 3_000_000_003 && TenUnitsFit(ranges)
    ensures 1_431_655_763.0 < Limit(ranges, 2_000_000_001) < 1_431_655_764.0
  {
    var ds, s := Durations(1, ranges), Seconds(ranges);
    assert ds[..0] == [] && Span([]) == 0.0;
    TimesIsProduct(3, ds[0].1);
    assert s == 3.0 * (1.0 / 2_000_000_001.0 * 1_000_000_001.0);
    var scale := 2_000_000_001;
    DurationIsScaled(scale, ranges);
    TimesIsProduct(scale, s);
    TimesIsProduct(10, s);
  }

  /** Behind 10^9 the next power that is large enough is the twelfth, cut down
      to 3567587328. */
  lemma FarLimit(t: real)
    requires 1_431_655_763.0 < t < 1_431_655_764.0
    ensures Found(t, 356_758_732)
  {
    var k := 12;
    SmallTens();
    TensFrom9(k - 3);
    forall j | 2 <= j < k
      ensures 0 < WrappedTen(j) && WrappedTen(j) as real < t
    {
      if j >= 9 { assert j == k - 3 || j == k - 2 || j == k - 1; }
    }
    SearchOver(t, k);
  }

  /** At one frame a second, three hundred million frames do not fit 31 bits
      even after the fallback. */
  lemma FallbackMayNotFit() returns (ranges: seq<FpsRange>)
    ensures Rates(ranges) && NoOverflow(ranges) && Chosen(ranges, 0, 0, 100) && Duration(100, ranges) > INT_MAX
    ensures Fallback(ranges, 100, 10) && Duration(10, ranges) > INT_MAX
  {
    var n := 300_000_000;
    var r := FpsRange(n, 1, 1);
    ranges := [r];
    assert Numbers.Gcd(1, 1) == Numbers.Gcd(1, 0) == 1 && Reduced(r) == r && ranges[..0] == [];
    assert CommonScale(ranges) == Numbers.Lcm(1, CommonScale([])) == 1 && MinDenom(ranges) == 1;
    AutoScaleExact(ranges);
    SecondsOfOne(ranges, n);
    WholeDuration(ranges, 100, n);
    WholeDuration(ranges, 10, n);
    LowLimit(Limit(ranges, 100));
    FallbackHolds(ranges, 100, 10);
  }

  lemma LowLimit(t: real)
    requires t <= 100.0
    ensures Found(t, 10)
  {
    var k := 2;
    SmallTens();
    SearchOver(t, k);
  }

  /** Frames that last a second each. */
  lemma SecondsOfOne(ranges: seq<FpsRange>, n: nat)
    requires Rates(ranges) && ranges == [FpsRange(n, 1, 1)]
    ensures Seconds(ranges) == n as real
  {
    var ds := Durations(1, ranges);
    assert ds[..0] == [] && Span([]) == 0.0;
    assert ds[0].1 == Delta(1, ranges[0]) == 1.0;
    TimesBounds(n, 1.0);
  }

  lemma WholeDuration(ranges: seq<FpsRange>, scale: nat, n: nat)
    requires Rates(ranges) && Seconds(ranges) == n as real
    ensures Duration(scale, ranges) == scale * n
  {
    DurationIsScaled(scale, ranges);
    TimesIsProduct(scale, n as real);
    RealOfProduct(scale, n);
  }

  /** The first sample still lasts after a delay. */
  lemma DelayedSecond(ts: seq<int>, us: seq<int>, offset: int)
    requires DelayedTo(ts, us, offset)
    ensures |us| == |ts| && us[1] >= ts[1]
  {
    StretchStep(ts[1], ts[1] + 1, DelayScale(offset, ts[1]));
  }

  class TrackEditor {
    const track: Track
    var sampleTimes: seq<SampleTime>
    var ctsIndex: seq<nat>
    var timeScale: nat
    var initialDelay: int
    var compressDTS: bool
    var audioDelay: int

    /** Loads the track's tables and sorts the samples by composition time. A
        composition table must describe every sample, and there must be one. */
    constructor (track: Track)
      requires track.ctts.Some? ==> |Expand(track.ctts.value)| == |Expand(track.stts)| >= 1
      ensures Valid() && this.track == track && Loaded(sampleTimes, track.stts, track.ctts)
      ensures NonDecreasing(View(Compose)) && timeScale == track.timeScale
      ensures !compressDTS && audioDelay == 0
    {
      this.track := track;
      sampleTimes, ctsIndex := [], [];
      timeScale, initialDelay := track.timeScale, 0;
      compressDTS, audioDelay := false, 0;
      new;
      LoadDTS();
      LoadCTS();
      ctsIndex := SortByCts(sampleTimes);
    }

    method LoadDTS()
      requires sampleTimes == []
      modifies this`sampleTimes
      ensures Loaded(sampleTimes, track.stts, None)
    {
      var dts := 0;
      for i := 0 to |track.stts|
        invariant DtsLoaded(sampleTimes, dts, Expand(track.stts[..i]))
      {
        ExpandNext(track.stts, i);
        dts := LoadDTSRun(track.stts[i], dts, Expand(track.stts[..i]));
      }
      assert track.stts[..|track.stts|] == track.stts;
      LoadSample(sampleTimes, dts, Expand(track.stts), 0);
      sampleTimes := sampleTimes + [SampleTime(dts, dts)];
    }

    method LoadDTSRun(run: Run, dts0: int, ghost front: seq<int>) returns (dts: int)
      requires DtsLoaded(sampleTimes, dts0, front)
      modifies this`sampleTimes
      ensures DtsLoaded(sampleTimes, dts, front + Copies(run.value, run.count))
    {
      dts := dts0;
      ghost var read := front;
      CopiesNext(front, run.value, 0);
      for j := 0 to run.count
        invariant DtsLoaded(sampleTimes, dts, read) && read == front + Copies(run.value, j)
      {
        LoadSample(sampleTimes, dts, read, run.value);
        CopiesNext(front, run.value, j);
        sampleTimes := sampleTimes + [SampleTime(dts, dts)];
        dts := dts + run.value;
        read := read + [run.value];
      }
    }

    method LoadCTS()
      requires Loaded(sampleTimes, track.stts, None)
      requires track.ctts.Some? ==> |Expand(track.ctts.value)| == |sampleTimes| - 1 >= 1
      modifies this`sampleTimes
      ensures Loaded(sampleTimes, track.stts, track.ctts)
    {
      if track.ctts.None? {
        return;
      }
      var runs := track.ctts.value;
      ghost var offsets, was := Expand(runs), sampleTimes;
      var maxCts := 0;
      var sp := 0;
      for i := 0 to |runs|
        invariant sp == |Expand(runs[..i])| <= |offsets|
        invariant CtsLoaded(was, sampleTimes, offsets, sp, maxCts)
      {
        ExpandNext(runs, i);
        ghost var front, next := Expand(runs[..i]), Expand(runs[..i + 1]);
        assert forall k :: sp <= k < sp + runs[i].count ==> offsets[k] == next[k] == runs[i].value;
        sp, maxCts := LoadCTSRun(runs[i], sp, maxCts, was, offsets);
      }
      assert runs[..|runs|] == runs;
      var delta := Uint32(sampleTimes[sp].dts - sampleTimes[sp - 1].dts);
      sampleTimes := sampleTimes[sp := sampleTimes[sp].(cts := maxCts + delta)];
      assert DtsOf(sampleTimes) == DtsOf(was);
    }

    method LoadCTSRun(run: Run, sp0: nat, maxCts0: int, ghost was: seq<SampleTime>, ghost offsets: seq<int>)
      returns (sp: nat, maxCts: int)
      requires sp0 + run.count <= |offsets| && CtsLoaded(was, sampleTimes, offsets, sp0, maxCts0)
      requires forall k :: sp0 <= k < sp0 + run.count ==> offsets[k] == run.value
      modifies this`sampleTimes
      ensures sp == sp0 + run.count && CtsLoaded(was, sampleTimes, offsets, sp, maxCts)
    {
      sp, maxCts := sp0, maxCts0;
      for j := 0 to run.count
        invariant sp == sp0 + j && CtsLoaded(was, sampleTimes, offsets, sp, maxCts)
      {
        sampleTimes := sampleTimes[sp := sampleTimes[sp].(cts := sampleTimes[sp].dts + run.value)];
        if sampleTimes[sp].cts > maxCts {
          maxCts := sampleTimes[sp].cts;
        }
        sp := sp + 1;
      }
    }

    ghost predicate Valid()
      reads this`sampleTimes, this`ctsIndex
    {
      sampleTimes != [] && IsPermutation(ctsIndex, |sampleTimes|)
    }

    /** The time codes an operation works on. */
    ghost function View(axis: Axis): (ts: seq<int>)
      requires Valid()
      reads this`sampleTimes, this`ctsIndex
      ensures |ts| == |sampleTimes|
    {
      match axis
      case Decode => DtsOf(sampleTimes)
      case Compose => CtsOf(sampleTimes, ctsIndex)
    }

    function TimeCode(axis: Axis, n: nat): (t: int)
      requires Valid() && n < |sampleTimes|
      reads this`sampleTimes, this`ctsIndex
      ensures t == View(axis)[n]
    {
      match axis
      case Decode => sampleTimes[n].dts
      case Compose => sampleTimes[ctsIndex[n]].cts
    }

    method SetTimeCode(axis: Axis, n: nat, v: int)
      requires Valid() && n < |sampleTimes|
      modifies this`sampleTimes
      ensures Valid() && |sampleTimes| == old(|sampleTimes|)
      ensures View(axis) == old(View(axis))[n := v]
      ensures forall other :: other != axis ==> View(other) == old(View(other))
    {
      SetDts(sampleTimes, ctsIndex, n, v);
      SetCts(sampleTimes, ctsIndex, n, v);
      match axis {
        case Decode => sampleTimes := sampleTimes[n := sampleTimes[n].(dts := v)];
        case Compose => sampleTimes := sampleTimes[ctsIndex[n] := sampleTimes[ctsIndex[n]].(cts := v)];
      }
    }

    /** The first `n` samples of both orders have these times, rounded. */
    ghost predicate TimedUpTo(os: seq<real>, n: nat)
      requires Valid() && n <= |os| <= |sampleTimes|
      reads this`sampleTimes, this`ctsIndex
    {
      && (forall f :: 0 <= f < n ==> View(Decode)[f] == Round(os[f]))
      && (forall f :: 0 <= f < n ==> View(Compose)[f] == Round(os[f]))
    }

    /** Gives the `n`th sample of both orders the same time code. */
    method SetBoth(n: nat, v: int)
      requires Valid() && n < |sampleTimes|
      modifies this`sampleTimes
      ensures Valid() && |sampleTimes| == old(|sampleTimes|)
      ensures View(Decode) == old(View(Decode))[n := v] && View(Compose) == old(View(Compose))[n := v]
    {
      SetTimeCode(Compose, n, v);
      SetTimeCode(Decode, n, v);
    }

    function FrameCount(): int
      reads this`sampleTimes
    {
      |sampleTimes| - 1
    }

    /** Moves every time code from index `n` on. */
    method ShiftFrom(n: nat, d: int, axis: Axis)
      requires Valid() && n <= |sampleTimes|
      modifies this`sampleTimes
      ensures Valid() && |sampleTimes| == old(|sampleTimes|)
      ensures View(axis) == Shifted(old(View(axis)), n, d)
      ensures forall other :: other != axis ==> View(other) == old(View(other))
    {
      for i := n to |sampleTimes|
        invariant Valid() && |sampleTimes| == old(|sampleTimes|)
        invariant forall k :: 0 <= k < |sampleTimes| ==>
                    View(axis)[k] == if n <= k < i then old(View(axis))[k] + d else old(View(axis))[k]
        invariant forall other :: other != axis ==> View(other) == old(View(other))
      {
        SetTimeCode(axis, i, TimeCode(axis, i) + d);
      }
    }

    /** Squeezes time codes until the shifted timeline has caught up. */
    method SqueezeUntilCaughtUp(offset: int, axis: Axis, scale: real) returns (n: nat)
      requires Valid() && |sampleTimes| >= 2
      modifies this`sampleTimes
      ensures Valid() && |sampleTimes| == old(|sampleTimes|)
      ensures Squeezing(old(View(axis)), View(axis), offset, scale, n)
      ensures n < |sampleTimes| ==> CaughtUp(old(View(axis))[n], Prev(View(axis), n), offset, old(View(axis))[1], scale)
      ensures forall other :: other != axis ==> View(other) == old(View(other))
    {
      ghost var ts := View(axis);
      var off := TimeCode(axis, 1);
      var prev := 0;
      n := 1;
      while n < |sampleTimes| && !CaughtUp(TimeCode(axis, n), prev, offset, off, scale)
        invariant Valid() && |sampleTimes| == |ts| && 1 <= n <= |ts|
        invariant Squeezing(ts, View(axis), offset, scale, n) && prev == Prev(View(axis), n)
        invariant forall other :: other != axis ==> View(other) == old(View(other))
        decreases |ts| - n
      {
        SqueezeNext(ts, View(axis), offset, scale, n);
        var cur := Apart(Scaled(TimeCode(axis, n), scale), prev);
        SetTimeCode(axis, n, cur);
        prev := cur;
        n := n + 1;
      }
    }

    /** Takes `offset` units off the time codes, squeezing the first of them. */
    method CompressTimeCodes(offset: int, axis: Axis)
      requires Valid() && |sampleTimes| >= 2 && offset + View(axis)[1] > 0
      modifies this`sampleTimes
      ensures Valid() && |sampleTimes| == old(|sampleTimes|)
      ensures CompressedTo(old(View(axis)), View(axis), offset)
      ensures forall other :: other != axis ==> View(other) == old(View(other))
    {
      ghost var ts := View(axis);
      var scale := CompressScale(TimeCode(axis, 1), offset);
      var n := SqueezeUntilCaughtUp(offset, axis, scale);
      ghost var us := View(axis);
      ShiftFrom(n, -offset, axis);
      SqueezeDone(ts, us, View(axis), offset, n);
      assert Compressed(ts, View(axis), offset, n);
    }

    /** Adds `offset` units to the time codes, stretching the first of them. */
    method DelayTimeCodes(offset: int, axis: Axis)
      requires Valid() && |sampleTimes| >= 2 && offset >= 0 && View(axis)[1] > 0
      modifies this`sampleTimes
      ensures Valid() && |sampleTimes| == old(|sampleTimes|)
      ensures DelayedTo(old(View(axis)), View(axis), offset)
      ensures forall other :: other != axis ==> View(other) == old(View(other))
    {
      ghost var ts := View(axis);
      var off := TimeCode(axis, 1);
      var scale, _ := SearchScale(offset, off);
      var n := 1;
      while n < |sampleTimes| && Scaled(TimeCode(axis, n), scale) < TimeCode(axis, n) + offset
        invariant Valid() && |sampleTimes| == |ts| && 1 <= n <= |ts|
        invariant Stretching(ts, View(axis), offset, scale, n)
        invariant forall other :: other != axis ==> View(other) == old(View(other))
        decreases |ts| - n
      {
        SetTimeCode(axis, n, Scaled(TimeCode(axis, n), scale));
        n := n + 1;
      }
      ShiftFrom(n, offset, axis);
      assert Delayed(ts, View(axis), offset, n);
    }

    method EnableDTSCompression(enable: bool)
      modifies this`compressDTS
      ensures compressDTS == enable
    {
      compressDTS := enable;
    }

    method SetAudioDelay(delay: int)
      modifies this`audioDelay
      ensures audioDelay == delay
    {
      audioDelay := delay;
    }

    /** The audio delay, given in milliseconds, in units of the time scale,
        truncated towards zero. */
    function AudioDelayInTimeScale(): (d: int)
      reads this`audioDelay, this`timeScale
      ensures Milliseconds(d, audioDelay, timeScale)
      ensures audioDelay >= 0 ==> d >= 0
      ensures audioDelay <= 0 ==> d <= 0
    {
      CDiv(audioDelay * timeScale, 1000)
    }

    /** Gives every sample its own time code, `timeCodes[i]` to the `i`th in
        decoding order and to the `i`th in composition order. */
    method SetTimeCodes(timeCodes: seq<real>, scale: nat) returns (ok: bool)
      requires Valid() && forall t :: t in timeCodes ==> t >= 0.0
      modifies this`sampleTimes, this`timeScale
      ensures ok == (|timeCodes| == old(|sampleTimes|))
      ensures !ok ==> sampleTimes == old(sampleTimes) && timeScale == old(timeScale)
      ensures ok ==> Valid() && timeScale == scale && View(Decode) == Rounded(timeCodes) && View(Compose) == Rounded(timeCodes)
    {
      if |timeCodes| != |sampleTimes| {
        return false;
      }
      for i := 0 to |timeCodes|
        invariant Valid() && |sampleTimes| == |timeCodes|
        invariant TimedUpTo(timeCodes, i)
      {
        var t := Round(timeCodes[i]);
        SetBoth(i, t);
      }
      timeScale := scale;
      return true;
    }

    method StampFrame(frame: nat, offset: real, ghost os: seq<real>)
      requires Valid() && frame < |os| == |sampleTimes| && TimedUpTo(os, frame) && offset == os[frame]
      modifies this`sampleTimes
      ensures Valid() && |sampleTimes| == old(|sampleTimes|) && TimedUpTo(os, frame + 1)
    {
      SetBoth(frame, Round(offset));
    }

    /** Gives every frame the rounded exact time its rate implies. */
    method CalcSampleTimes(ranges: seq<FpsRange>, scale: int) returns (duration: int)
      requires Valid() && Rates(ranges) && TotalFrames(ranges) == FrameCount()
      modifies this`sampleTimes
      ensures Valid() && |sampleTimes| == old(|sampleTimes|)
      ensures View(Decode) == Rounded(Offsets(scale, ranges)) && View(Compose) == Rounded(Offsets(scale, ranges))
      ensures duration == Round(Offsets(scale, ranges)[TotalFrames(ranges)])
    {
      ghost var os := Offsets(scale, ranges);
      var offset := 0.0;
      var frame := 0;
      for k := 0 to |ranges|
        invariant Valid() && |sampleTimes| == |os|
        invariant frame == TotalFrames(ranges[..k]) < |os| && offset == os[frame]
        invariant TimedUpTo(os, frame)
      {
        TotalNext(ranges, k);
        RangeIsEven(scale, ranges, k);
        frame, offset := StampRange(ranges[k].numFrames, Delta(scale, ranges[k]), frame, offset, os);
      }
      assert ranges[..|ranges|] == ranges;
      StampFrame(frame, offset, os);
      duration := TimeCode(Decode, frame);
    }

    /** Stamps `n` frames that last equally long. */
    method StampRange(n: nat, delta: real, frame0: nat, offset0: real, ghost os: seq<real>)
      returns (frame: nat, offset: real)
      requires Valid() && Evenly(os, frame0, n, delta)
      requires |os| == |sampleTimes| && offset0 == os[frame0] && TimedUpTo(os, frame0)
      modifies this`sampleTimes
      ensures Valid() && |sampleTimes| == old(|sampleTimes|)
      ensures frame == frame0 + n < |os| && offset == os[frame] && TimedUpTo(os, frame)
    {
      frame, offset := frame0, offset0;
      for i := 0 to n
        invariant Valid() && |sampleTimes| == |os|
        invariant frame == frame0 + i && Evenly(os, frame, n - i, delta)
        invariant offset == os[frame] && TimedUpTo(os, frame)
      {
        frame, offset := StampNext(n - i, delta, frame, offset, os);
      }
    }

    method StampNext(ghost left: nat, delta: real, frame0: nat, offset0: real, ghost os: seq<real>)
      returns (frame: nat, offset: real)
      requires Valid() && left > 0 && Evenly(os, frame0, left, delta)
      requires |os| == |sampleTimes| && offset0 == os[frame0] && TimedUpTo(os, frame0)
      modifies this`sampleTimes
      ensures Valid() && |sampleTimes| == old(|sampleTimes|)
      ensures frame == frame0 + 1 && Evenly(os, frame, left - 1, delta) && offset == os[frame] && TimedUpTo(os, frame)
    {
      EvenNext(os, frame0, left, delta);
      StampFrame(frame0, offset0, os);
      offset := offset0 + delta;
      frame := frame0 + 1;
    }

    method OffsetCTS(off: int)
      requires Valid()
      modifies this`sampleTimes
      ensures Valid() && |sampleTimes| == old(|sampleTimes|)
      ensures View(Decode) == old(View(Decode)) && View(Compose) == Shifted(old(View(Compose)), 0, off)
      ensures forall i :: 0 <= i < |sampleTimes| ==> sampleTimes[i] == SampleTime(old(sampleTimes)[i].dts, old(sampleTimes)[i].cts + off)
    {
      for i := 0 to |sampleTimes|
        invariant |sampleTimes| == old(|sampleTimes|)
        invariant forall k :: 0 <= k < i ==> sampleTimes[k] == SampleTime(old(sampleTimes)[k].dts, old(sampleTimes)[k].cts + off)
        invariant forall k :: i <= k < |sampleTimes| ==> sampleTimes[k] == old(sampleTimes)[k]
      {
        sampleTimes := sampleTimes[i := sampleTimes[i].(cts := sampleTimes[i].cts + off)];
      }
    }

    method CalcInitialDelay() returns (maxdiff: int)
      ensures LeastDelay(sampleTimes, maxdiff)
    {
      maxdiff := 0;
      for i := 0 to |sampleTimes|
        invariant maxdiff >= 0
        invariant forall k :: 0 <= k < i ==> sampleTimes[k].dts - sampleTimes[k].cts <= maxdiff
        invariant maxdiff > 0 ==> exists k :: 0 <= k < i && sampleTimes[k].dts - sampleTimes[k].cts == maxdiff
      {
        var diff := sampleTimes[i].dts - sampleTimes[i].cts;
        if diff > maxdiff {
          maxdiff := diff;
        }
      }
    }

    /** A negative audio delay holds the video back on both axes. */
    method DelayBoth(delay: int)
      requires Valid() && |sampleTimes| >= 2 && delay >= 0 && View(Decode)[1] > 0 && View(Compose)[1] > 0
      modifies this`sampleTimes
      ensures Valid() && |sampleTimes| == old(|sampleTimes|)
      ensures DelayedTo(old(View(Decode)), View(Decode), delay) && View(Decode)[1] > 0
      ensures DelayedTo(old(View(Compose)), View(Compose), delay) && View(Compose)[0] == old(View(Compose))[0]
      ensures View(Compose)[1] > 0
    {
      DelayTimeCodes(delay, Compose);
      DelayTimeCodes(delay, Decode);
      DelayedSecond(old(View(Decode)), View(Decode), delay);
      DelayedSecond(old(View(Compose)), View(Compose), delay);
    }

    /** Composition is made to start at 0. */
    method StartAtZero()
      requires Valid() && View(Compose)[0] >= 0
      modifies this`sampleTimes
      ensures Valid() && |sampleTimes| == old(|sampleTimes|)
      ensures View(Decode) == old(View(Decode)) && View(Compose) == FromZero(old(View(Compose)))
    {
      if TimeCode(Compose, 0) > 0 {
        OffsetCTS(-TimeCode(Compose, 0));
      }
    }

    /** The first half of the adjustment: an audio delay is worked into the
        video's time codes if they may be bent, and composition is made to
        start at 0. */
    method PrepareTimeCodes()
      requires Adjustable()
      modifies this`sampleTimes
      ensures Valid() && |sampleTimes| == old(|sampleTimes|)
      ensures Prepared(old(View(Decode)), old(View(Compose)), View(Decode), View(Compose),
                       compressDTS, audioDelay, AudioDelayInTimeScale())
      ensures View(Compose)[0] == 0
      ensures compressDTS && old(View(Decode)[1]) > 0 ==> View(Decode)[1] > 0
    {
      if compressDTS && audioDelay < 0 {
        DelayBoth(-AudioDelayInTimeScale());
        StartAtZero();
      } else {
        StartAtZero();
        if compressDTS && audioDelay > 0 {
          CompressTimeCodes(AudioDelayInTimeScale(), Compose);
          CompressedFirst(FromZero(old(View(Compose))), View(Compose), AudioDelayInTimeScale());
        }
      }
    }

    /** Compressing the decoding times leaves composition alone. */
    method CompressDecoding(offset: int)
      requires Valid() && |sampleTimes| >= 2 && offset + View(Decode)[1] > 0
      modifies this`sampleTimes
      ensures Valid() && |sampleTimes| == old(|sampleTimes|)
      ensures CompressedTo(old(View(Decode)), View(Decode), offset) && View(Compose) == old(View(Compose))
      ensures forall i :: 0 <= i < |sampleTimes| ==> sampleTimes[i].cts == old(sampleTimes)[i].cts
    {
      CompressTimeCodes(offset, Decode);
      assert View(Compose) == old(View(Compose));
      SameCts(old(sampleTimes), sampleTimes, ctsIndex);
    }

    /** The second half: decoding times are compressed by the delay they would
        need, if they may be bent, and composition is delayed by what is left. */
    method SettleTimeCodes() returns (ghost plain: int)
      requires Valid() && View(Compose)[0] == 0
      requires compressDTS ==> Squeezable(sampleTimes)
      modifies this`sampleTimes, this`initialDelay
      ensures Valid() && |sampleTimes| == old(|sampleTimes|)
      ensures LeastDelay(old(sampleTimes), plain)
      ensures if compressDTS then CompressedTo(old(View(Decode)), View(Decode), plain) else View(Decode) == old(View(Decode))
      ensures Settled(old(sampleTimes), sampleTimes, initialDelay)
      ensures View(Compose) == Shifted(old(View(Compose)), 0, initialDelay)
      ensures !compressDTS ==> initialDelay == plain
      ensures compressDTS && Compressible(DtsOf(old(sampleTimes)), plain) ==> initialDelay <= plain
    {
      initialDelay := CalcInitialDelay();
      plain := initialDelay;
      if compressDTS {
        CompressDecoding(initialDelay);
        initialDelay := CalcInitialDelay();
        if Compressible(DtsOf(old(sampleTimes)), plain) {
          var b :| Compressed(DtsOf(old(sampleTimes)), View(Decode), plain, b);
          CompressionReducesDelay(old(sampleTimes), sampleTimes, plain, initialDelay, b);
        }
      }
      ghost var st := sampleTimes;
      OffsetCTS(initialDelay);
      SettleAll(old(sampleTimes), st, sampleTimes, initialDelay);
    }

    /** Both halves of the adjustment. */
    method BendTimeCodes() returns (ghost mid: seq<SampleTime>, ghost plain: int)
      requires Adjustable()
      modifies this`sampleTimes, this`initialDelay
      ensures Valid() && |sampleTimes| == old(|sampleTimes|) == |mid|
      ensures Prepared(old(View(Decode)), old(View(Compose)), DtsOf(mid), CtsOf(mid, ctsIndex),
                       compressDTS, audioDelay, AudioDelayInTimeScale())
      ensures LeastDelay(mid, plain)
      ensures if compressDTS then CompressedTo(DtsOf(mid), View(Decode), plain) else View(Decode) == DtsOf(mid)
      ensures Settled(mid, sampleTimes, initialDelay)
      ensures View(Compose) == Shifted(CtsOf(mid, ctsIndex), 0, initialDelay) && View(Compose)[0] == initialDelay
      ensures !compressDTS ==> initialDelay == plain
      ensures compressDTS && Compressible(DtsOf(mid), plain) ==> initialDelay <= plain
    {
      PrepareTimeCodes();
      mid := sampleTimes;
      if compressDTS {
        StillSqueezable();
      }
      plain := SettleTimeCodes();
    }

    /** Works an audio delay into the time codes and makes every sample decode
        no later than it is composed. `mid` holds the samples half-way, and
        `plain` the delay of composition they would need as they are. */
    method AdjustTimeCodes() returns (ghost mid: seq<SampleTime>, ghost plain: int)
      requires Adjustable()
      modifies this`sampleTimes, this`initialDelay
      ensures Valid() && |sampleTimes| == old(|sampleTimes|) == |mid|
      ensures Prepared(old(View(Decode)), old(View(Compose)), DtsOf(mid), CtsOf(mid, ctsIndex),
                       compressDTS, audioDelay, AudioDelayInTimeScale())
      ensures LeastDelay(mid, plain)
      ensures if compressDTS then CompressedTo(DtsOf(mid), View(Decode), plain) else View(Decode) == DtsOf(mid)
      ensures Settled(mid, sampleTimes, initialDelay)
      ensures View(Compose) == Shifted(CtsOf(mid, ctsIndex), 0, initialDelay)
      ensures View(Compose)[0] == initialDelay
      ensures old(GapsAtLeast(View(Compose), 1)) ==> (StrictlyIncreasing(View(Compose)) <==> old(Ordered()))
      ensures old(Ordered()) ==> OnlyOrder(sampleTimes, ctsIndex)
      ensures !compressDTS ==> initialDelay == plain
      ensures forall i :: 0 <= i < |sampleTimes| ==> sampleTimes[i].dts <= sampleTimes[i].cts
      ensures initialDelay > 0 ==> exists i :: 0 <= i < |sampleTimes| && sampleTimes[i].dts == sampleTimes[i].cts
      ensures !compressDTS ==> forall i :: 0 <= i < |sampleTimes| ==> sampleTimes[i].dts == old(sampleTimes)[i].dts
      ensures !compressDTS || audioDelay == 0 ==> forall k :: 0 <= k < |sampleTimes| ==>
                View(Compose)[k] == old(View(Compose))[k] - old(View(Compose))[0] + initialDelay
      ensures compressDTS && old(Advancing(View(Decode))) ==>
                && initialDelay <= plain
                && Compressible(DtsOf(mid), plain)
                && (StrictlyIncreasing(View(Decode)) <==> StaysOrdered(DtsOf(mid), plain))
    {
      mid, plain := BendTimeCodes();
      if old(GapsAtLeast(View(Compose), 1)) {
        PresentationKept(old(View(Decode)), old(View(Compose)), mid, sampleTimes, ctsIndex,
                         compressDTS, audioDelay, AudioDelayInTimeScale(), initialDelay);
      }
      if compressDTS && old(Advancing(View(Decode))) {
        DecodingKeepsOrder(old(View(Decode)), old(View(Compose)), DtsOf(mid), CtsOf(mid, ctsIndex),
                           audioDelay, AudioDelayInTimeScale(), plain, View(Decode));
      }
    }

    /** Composition times strictly increase along the index, and compressing
        them, if the adjustment does, keeps their order. */
    ghost predicate Ordered()
      requires Valid()
      reads this`sampleTimes, this`ctsIndex, this`timeScale, this`compressDTS, this`audioDelay
    {
      && GapsAtLeast(View(Compose), 1)
      && StaysInOrder(FromZero(View(Compose)), compressDTS && audioDelay > 0, AudioDelayInTimeScale())
    }

    /** What the adjustment expects: no negative composition time, and nowhere
        a division by zero where time codes are scaled. */
    ghost predicate Adjustable()
      reads this`sampleTimes, this`ctsIndex, this`timeScale, this`compressDTS, this`audioDelay
    {
      && Valid() && View(Compose)[0] >= 0
      && (compressDTS ==>
            && |sampleTimes| >= 2
            && (audioDelay < 0 ==> View(Decode)[1] > 0 && View(Compose)[1] > 0)
            && (audioDelay > 0 ==> AudioDelayInTimeScale() + View(Compose)[1] - View(Compose)[0] > 0)
            && (View(Decode)[1] > 0 || (audioDelay >= 0 && DelayNeeded())))
    }

    /** Some sample decodes so long after its composition half-way that the
        second decoding time, though not positive, leaves a scale. */
    ghost predicate DelayNeeded()
      requires Valid() && |sampleTimes| >= 2
      requires audioDelay > 0 ==> AudioDelayInTimeScale() + View(Compose)[1] - View(Compose)[0] > 0
      reads this`sampleTimes, this`ctsIndex, this`timeScale, this`audioDelay
    {
      Late(sampleTimes, ctsIndex, Halfway(View(Compose), audioDelay > 0, AudioDelayInTimeScale()))
    }

    /** Half-way through the adjustment decoding times can be compressed. */
    twostate lemma StillSqueezable()
      requires old(Adjustable()) && compressDTS && Valid() && |sampleTimes| == old(|sampleTimes|)
      requires unchanged(`ctsIndex) && unchanged(`timeScale) && unchanged(`compressDTS) && unchanged(`audioDelay)
      requires Prepared(old(View(Decode)), old(View(Compose)), View(Decode), View(Compose),
                        compressDTS, audioDelay, AudioDelayInTimeScale())
      requires old(View(Decode)[1]) > 0 ==> View(Decode)[1] > 0
      ensures Squeezable(sampleTimes)
    {
      if old(View(Decode)[1]) <= 0 {
        HalfwayIs(old(View(Decode)), old(View(Compose)), View(Decode), View(Compose),
                  compressDTS, audioDelay, AudioDelayInTimeScale());
        LateIsSqueezable(old(sampleTimes), sampleTimes, ctsIndex, View(Compose));
      }
    }

    /** Regenerates all times from frame rates at a time scale: `requested`, or
        the one in use if that is negative, or an automatic one if it is 0.
        `first` is the scale tried before the duration is known. */
    method SetFPS(given: seq<FpsRange>, requested: int) returns (ok: bool, ghost first: nat)
      requires Valid() && Rates(given)
      modifies this`sampleTimes, this`timeScale
      ensures ok == (TotalFrames(Fill(given, old(FrameCount()))) == old(FrameCount()))
      ensures !ok ==> sampleTimes == old(sampleTimes) && timeScale == old(timeScale)
      ensures ok ==> Valid() && |sampleTimes| == old(|sampleTimes|)
      ensures ok ==> Generated(Fill(given, FrameCount()), requested, old(timeScale), first)
      ensures ok && requested > 0 ==> timeScale == requested
      ensures ok && requested < 0 ==> timeScale == old(timeScale)
      ensures ok && requested == 0 && NoOverflow(Fill(given, FrameCount())) ==>
                first == Boost(CommonScale(Fill(given, FrameCount())), MinDenom(Fill(given, FrameCount())))
      ensures ok && requested == 0 && Duration(first, Fill(given, FrameCount())) <= 0x7fff_ffff ==> timeScale == first
      ensures ok && requested == 0 && first <= 1_000_000_000 && TenUnitsFit(Fill(given, FrameCount())) ==>
                View(Decode)[FrameCount()] <= 0x7fff_ffff
    {
      first := 0;
      var filled := NormalizeFPSRange(given, FrameCount());
      if filled == None {
        return false, first;
      }
      first := Generate(filled.value, requested);
      ok := true;
      if NoOverflow(filled.value) {
        AutoScaleExact(filled.value);
      }
    }

    method Generate(filled: seq<FpsRange>, requested: int) returns (ghost first: nat)
      requires Valid() && Rates(filled) && TotalFrames(filled) == FrameCount()
      modifies this`sampleTimes, this`timeScale
      ensures Valid() && |sampleTimes| == old(|sampleTimes|)
      ensures Generated(filled, requested, old(timeScale), first)
    {
      var scale, ranges := ChooseScale(filled, requested);
      first := scale;
      timeScale := FitDuration(filled, ranges, requested == 0, scale);
    }

    /** The time scale to try first, and the rates, perhaps in lowest terms. */
    method ChooseScale(ranges: seq<FpsRange>, requested: int) returns (scale: nat, reduced: seq<FpsRange>)
      requires Rates(ranges)
      ensures Chosen(ranges, requested, timeScale, scale)
      ensures |reduced| == |ranges|
      ensures forall i :: 0 <= i < |ranges| ==> reduced[i] == ranges[i] || reduced[i] == Reduced(ranges[i])
    {
      scale, reduced := timeScale, ranges;
      if requested == 0 {
        scale, reduced := CalcTimeScale(ranges);
      } else if requested > 0 {
        scale := requested;
      }
    }

    /** Generates the times, at a coarser scale if the duration is too long for
        31 bits and the scale is free. */
    method FitDuration(ghost ranges: seq<FpsRange>, reduced: seq<FpsRange>, free: bool, first: nat) returns (scale: nat)
      requires Valid() && Rates(ranges) && TotalFrames(ranges) == FrameCount() && |reduced| == |ranges|
      requires forall i :: 0 <= i < |ranges| ==> reduced[i] == ranges[i] || reduced[i] == Reduced(ranges[i])
      modifies this`sampleTimes
      ensures Valid() && |sampleTimes| == old(|sampleTimes|)
      ensures View(Decode) == Rounded(Offsets(scale, ranges)) && View(Compose) == Rounded(Offsets(scale, ranges))
      ensures Fitted(ranges, free, first, scale)
    {
      scale := first;
      ReducedOffsets(first, ranges, reduced);
      var duration := CalcSampleTimes(reduced, scale);
      if duration > INT_MAX && free {
        scale := PowerBelow((first * INT_MAX) as real / duration as real);
        FallbackHolds(ranges, first, scale);
        ReducedOffsets(scale, ranges, reduced);
        duration := CalcSampleTimes(reduced, scale);
      }
    }

    /** Both orders have the rounded exact times of the frame rates. */
    ghost predicate Generated(ranges: seq<FpsRange>, requested: int, was: nat, first: nat)
      requires Valid() && Rates(ranges) && TotalFrames(ranges) == FrameCount()
      reads this`sampleTimes, this`ctsIndex, this`timeScale
    {
      && View(Decode) == Rounded(Offsets(timeScale, ranges)) && View(Compose) == Rounded(Offsets(timeScale, ranges))
      && Chosen(ranges, requested, was, first)
      && Fitted(ranges, requested == 0, first, timeScale)
    }

    /** Writes the decoding times as a table of their differences, the first
        sample taken to start at 0. If the first difference is the one the loop
        starts with, no run has been opened to count it in. */
    method UpdateStts() returns (ok: bool)
      requires Valid()
      modifies track`stts
      ensures ok <==> CountableDeltas(sampleTimes)
      ensures ok ==> Canonical(track.stts) && Expand(track.stts) == Words(DecodeDeltas(sampleTimes))
      ensures !ok ==> track.stts == []
    {
      var runs;
      assert |sampleTimes| >= 2 ==> DecodeDeltas(sampleTimes)[0] == sampleTimes[1].dts;
      ok, runs := CountDeltas(DecodeDeltas(sampleTimes));
      track.stts := runs;
    }

    method CountDeltas(ghost ds: seq<int>) returns (ok: bool, runs: seq<Run>)
      requires |ds| == |sampleTimes| - 1
      requires forall i :: 0 <= i < |ds| ==> ds[i] == sampleTimes[i + 1].dts - if i == 0 then 0 else sampleTimes[i].dts
      ensures ok <==> (ds != [] ==> Int32(ds[0]) != -1)
      ensures if ok then Canonical(runs) && Expand(runs) == Words(ds) else runs == []
    {
      runs := [];
      var prevDts, prevDelta := 0, -1;
      for i := 1 to |sampleTimes|
        invariant Canonical(runs) && Expand(runs) == Words(ds[..i - 1])
        invariant prevDts == if i == 1 then 0 else sampleTimes[i - 1].dts
        invariant i == 1 ==> runs == [] && prevDelta == -1
        invariant i > 1 ==> Int32(ds[0]) != -1 && EndsWith(runs, Uint32(ds[i - 2])) && prevDelta == Int32(ds[i - 2])
      {
        ghost var d := ds[i - 1];
        var delta := Int32(sampleTimes[i].dts - prevDts);
        assert delta == Int32(d);
        ok, runs := CountDelta(runs, delta, prevDelta, ds, i - 1);
        if !ok {
          return;
        }
        prevDts, prevDelta := sampleTimes[i].dts, delta;
      }
      assert ds[..|ds|] == ds;
      ok := true;
    }

    method CountDelta(runs0: seq<Run>, delta: int, prevDelta: int, ghost ds: seq<int>, ghost i: nat) returns (ok: bool, runs: seq<Run>)
      requires i < |ds| && delta == Int32(ds[i]) && Canonical(runs0) && Expand(runs0) == Words(ds[..i])
      requires if i == 0 then runs0 == [] && prevDelta == -1
               else EndsWith(runs0, Uint32(ds[i - 1])) && prevDelta == Int32(ds[i - 1])
      ensures ok <==> i > 0 || delta != -1
      ensures if ok then Canonical(runs) && Expand(runs) == Words(ds[..i + 1]) && EndsWith(runs, Uint32(ds[i])) else runs == []
    {
      NextDelta(runs0, ds, i);
      ok, runs := CountValue(runs0, delta != prevDelta, Uint32(delta));
    }

    /** Writes the real samples' composition offsets as a table; again the first
        must not be the one the loop starts with. */
    method UpdateCtts() returns (ok: bool)
      requires Valid() && track.ctts.Some?
      modifies track`ctts
      ensures ok <==> CountableOffsets(sampleTimes)
      ensures track.ctts.Some?
      ensures ok ==> Canonical(track.ctts.value) && Expand(track.ctts.value) == SignedWords(CompositionOffsets(sampleTimes))
      ensures !ok ==> track.ctts.value == []
    {
      var runs;
      ok, runs := CountOffsets(CompositionOffsets(sampleTimes));
      track.ctts := Some(runs);
    }

    method CountOffsets(ghost xs: seq<int>) returns (ok: bool, runs: seq<Run>)
      requires |xs| == |sampleTimes| - 1
      requires forall i :: 0 <= i < |xs| ==> xs[i] == sampleTimes[i].cts - sampleTimes[i].dts
      ensures ok <==> (xs != [] ==> Int32(xs[0]) != INT_MIN)
      ensures if ok then Canonical(runs) && Expand(runs) == SignedWords(xs) else runs == []
    {
      runs := [];
      var offset := INT_MIN;
      for i := 0 to FrameCount()
        invariant Canonical(runs) && Expand(runs) == SignedWords(xs[..i])
        invariant i == 0 ==> runs == [] && offset == INT_MIN
        invariant i > 0 ==> Int32(xs[0]) != INT_MIN && EndsWith(runs, offset) && offset == Int32(xs[i - 1])
      {
        ghost var x := xs[i];
        var ctsoff := Int32(sampleTimes[i].cts - sampleTimes[i].dts);
        assert ctsoff == Int32(x);
        NextOffset(runs, xs, i);
        ok, runs := CountValue(runs, ctsoff != offset, ctsoff);
        if !ok {
          return;
        }
        offset := ctsoff;
      }
      assert xs[..|xs|] == xs;
      ok := true;
    }

    function GetMediaDuration(): (d: int)
      requires Valid()
      reads this`sampleTimes, this`ctsIndex
      ensures d == sampleTimes[ctsIndex[|sampleTimes| - 1]].cts - sampleTimes[ctsIndex[0]].cts
    {
      sampleTimes[ctsIndex[FrameCount()]].cts - sampleTimes[ctsIndex[0]].cts
    }

    method UpdateTables() returns (ok: bool)
      requires Valid()
      modifies track`stts, track`ctts
      ensures ok <==> Countable(sampleTimes, old(track.ctts))
      ensures ok ==> Written(sampleTimes, old(track.ctts), track.stts, track.ctts)
    {
      ghost var st, was := sampleTimes, track.ctts;
      ok := UpdateStts();
      if !ok {
        return;
      }
      ghost var stts := track.stts;
      if track.ctts.Some? {
        ok := UpdateCtts();
      }
      assert track.stts == stts && sampleTimes == st;
    }

    method UpdateHeader()
      requires Valid()
      modifies track`timeScale, track`mediaDuration
      ensures track.timeScale == timeScale && track.mediaDuration == GetMediaDuration()
    {
      if timeScale != track.timeScale || GetMediaDuration() != track.mediaDuration {
        track.timeScale := timeScale;
        track.mediaDuration := GetMediaDuration();
      }
    }

    /** Writes this track: time scale and duration, tables, and edit list. `d`
        is a positive audio delay in units, if it has not bent the times. */
    method EditTrack() returns (ok: bool, ghost d: int)
      requires Valid()
      modifies track
      ensures ok <==> Countable(sampleTimes, old(track.ctts))
      ensures TrackWritten(ok, old(track.ctts), old(track.edits))
      ensures TrackPresents(ok, d)
    {
      UpdateHeader();
      label Headed:
      ok := WriteTables();
      assert unchanged@Headed(track`timeScale, track`mediaDuration);
      d := Presented(ok, old(track.ctts), old(track.edits));
    }

    /** What a player is told: the time scale, the time from the first sample
        composed to the end of the last, and, unless it is 0, the media time to
        start at: the delay of composition and `d`, the audio delay if it is
        positive and has not bent the times. */
    ghost predicate TrackPresents(ok: bool, d: int)
      requires Valid()
      reads this, track
    {
      && track.timeScale == timeScale
      && track.mediaDuration == sampleTimes[ctsIndex[|sampleTimes| - 1]].cts - sampleTimes[ctsIndex[0]].cts
      && (if !compressDTS && audioDelay > 0 then Milliseconds(d, audioDelay, timeScale) else d == 0)
      && (ok ==> track.edits == if initialDelay + d == 0 then [] else [Edit(initialDelay + d, track.duration)])
    }

    lemma Presented(ok: bool, ctts: Option<seq<Run>>, edits: seq<Edit>) returns (d: int)
      requires Valid() && TrackWritten(ok, ctts, edits)
      ensures TrackPresents(ok, d)
    {
      d := UnbentDelay();
    }

    /** Every sound track starts at the audio delay, in its own units `ds`, if
        that is negative and has not bent the video's times. */
    ghost predicate SoundPresents(sound: seq<Track>, ds: seq<int>)
      reads this`compressDTS, this`audioDelay, sound
    {
      && |ds| == |sound|
      && (forall k :: 0 <= k < |sound| ==>
            if !compressDTS && audioDelay < 0 then Milliseconds(ds[k], -audioDelay, sound[k].timeScale) else ds[k] == 0)
      && (forall k :: 0 <= k < |sound| ==> sound[k].edits == if ds[k] == 0 then [] else [Edit(ds[k], sound[k].duration)])
    }

    /** The tables and, if they can be written, the edit list. */
    method WriteTables() returns (ok: bool)
      requires Valid()
      modifies track`stts, track`ctts, track`edits
      ensures ok <==> Countable(sampleTimes, old(track.ctts))
      ensures TablesWritten(ok, old(track.ctts), old(track.edits))
    {
      ok := UpdateTables();
      if ok {
        track.UpdateElst(initialDelay + UnbentDelay());
      }
    }

    /** A positive audio delay that was not worked into the time codes. */
    function UnbentDelay(): int
      reads this`compressDTS, this`audioDelay, this`timeScale
    {
      if !compressDTS && audioDelay > 0 then AudioDelayInTimeScale() else 0
    }

    /** The header, the tables and the edit list of the track say what this
        editor holds; if a table cannot be written the edit list is as it was. */
    ghost predicate TrackWritten(ok: bool, ctts: Option<seq<Run>>, edits: seq<Edit>)
      requires Valid()
      reads this, track
    {
      && track.timeScale == timeScale && track.mediaDuration == GetMediaDuration()
      && TablesWritten(ok, ctts, edits)
    }

    ghost predicate TablesWritten(ok: bool, ctts: Option<seq<Run>>, edits: seq<Edit>)
      requires Valid()
      reads this, track`stts, track`ctts, track`edits
    {
      && (ok ==> Written(sampleTimes, ctts, track.stts, track.ctts))
      && track.edits == if ok then EditsAt(initialDelay + UnbentDelay(), track.duration) else edits
    }

    /** Writes everything back: this track, and the edit lists of the sound
        tracks, which are left alone if a table cannot be written. */
    method DoEditTimeCodes(sound: seq<Track>) returns (ok: bool, ghost d: int, ghost ds: seq<int>)
      requires Valid() && track !in sound
      modifies track, sound
      ensures ok <==> Countable(sampleTimes, old(track.ctts))
      ensures TrackWritten(ok, old(track.ctts), old(track.edits))
      ensures TrackPresents(ok, d)
      ensures ok ==> SoundEdited(sound) && SoundPresents(sound, ds)
      ensures !ok ==> forall t :: t in sound ==> t.edits == old(t.edits)
      ensures forall t :: t in sound ==> t.timeScale == old(t.timeScale) && t.stts == old(t.stts) && t.ctts == old(t.ctts)
    {
      ok, d := EditTrack();
      ds := [];
      if ok {
        label Written:
        ds := EditSound(sound);
        assert unchanged@Written(track) && unchanged@Written(this);
      }
    }

    /** An audio delay that does not bend the video's times, if negative, is
        left to the edit lists of the sound tracks, in whose units it is `ds`. */
    method EditSound(sound: seq<Track>) returns (ghost ds: seq<int>)
      modifies sound
      ensures SoundEdited(sound) && SoundPresents(sound, ds)
      ensures forall t :: t in sound ==> t.timeScale == old(t.timeScale) && t.stts == old(t.stts) && t.ctts == old(t.ctts)
    {
      ds := [];
      for i := 0 to |sound|
        invariant forall t :: t in sound ==> t.timeScale == old(t.timeScale) && t.stts == old(t.stts) && t.ctts == old(t.ctts)
        invariant |ds| == i && forall k :: 0 <= k < i ==> ds[k] == SoundDelay(sound[k].timeScale)
        invariant forall k :: 0 <= k < i ==> sound[k].edits == EditsAt(ds[k], sound[k].duration)
      {
        var delay := SoundDelay(sound[i].timeScale);
        sound[i].UpdateElst(delay);
        ds := ds + [delay];
      }
    }

    ghost predicate SoundEdited(sound: seq<Track>)
      reads this`compressDTS, this`audioDelay, sound
    {
      forall k :: 0 <= k < |sound| ==> sound[k].edits == EditsAt(SoundDelay(sound[k].timeScale), sound[k].duration)
    }

    /** The edit of a sound track with this time scale. */
    function SoundDelay(scale: nat): (d: int)
      reads this`compressDTS, this`audioDelay
      ensures if !compressDTS && audioDelay < 0 then Milliseconds(d, -audioDelay, scale) else d == 0
    {
      if !compressDTS && audioDelay < 0 then CDiv(-audioDelay * scale, 1000) else 0
    }
  }

  // ---- Tables ----

  /** Differences of the decoding times, the first counted from 0. */
  function DecodeDeltas(st: seq<SampleTime>): (ds: seq<int>)
    requires st != []
    ensures |ds| == |st| - 1
    ensures forall i :: 0 <= i < |ds| ==> ds[i] == st[i + 1].dts - if i == 0 then 0 else st[i].dts
  {
    Deltas(DtsOf(st)[0 := 0])
  }

  /** Composition offsets of the real samples. */
  function CompositionOffsets(st: seq<SampleTime>): (xs: seq<int>)
    requires st != []
    ensures |xs| == |st| - 1 && forall i :: 0 <= i < |xs| ==> xs[i] == st[i].cts - st[i].dts
  {
    seq(|st| - 1, i requires 0 <= i < |st| - 1 => st[i].cts - st[i].dts)
  }

  /** The first values of the tables are not those the loops start from. */
  predicate Countable(st: seq<SampleTime>, ctts: Option<seq<Run>>) {
    CountableDeltas(st) && (ctts.Some? ==> CountableOffsets(st))
  }

  predicate CountableDeltas(st: seq<SampleTime>) {
    |st| >= 2 ==> Int32(st[1].dts) != -1
  }

  predicate CountableOffsets(st: seq<SampleTime>) {
    |st| >= 2 ==> Int32(st[0].cts - st[0].dts) != INT_MIN
  }

  /** The tables written for these samples, without redundancy. A track
      without composition offsets is not given any. */
  ghost predicate Written(st: seq<SampleTime>, was: Option<seq<Run>>, stts: seq<Run>, ctts: Option<seq<Run>>)
    requires st != []
  {
    && Canonical(stts) && Expand(stts) == Words(DecodeDeltas(st))
    && (was.Some? <==> ctts.Some?)
    && (ctts.Some? ==> Canonical(ctts.value) && Expand(ctts.value) == SignedWords(CompositionOffsets(st)))
  }

  /** Counts a value in the last run, opening a new one if told to. There must
      be a run to count it in. */
  method CountValue(runs0: seq<Run>, isNew: bool, v: int) returns (ok: bool, runs: seq<Run>)
    requires Canonical(runs0) && (runs0 != [] ==> isNew == !EndsWith(runs0, v))
    ensures ok <==> runs0 != [] || isNew
    ensures if ok then Canonical(runs) && Expand(runs) == Expand(runs0) + [v] && EndsWith(runs, v) else runs == []
  {
    CountNext(runs0, v);
    runs := runs0;
    if isNew {
      runs := runs + [Run(0, v)];
    }
    if runs == [] {
      return false, runs;
    }
    var m := |runs| - 1;
    runs := runs[m := runs[m].(count := runs[m].count + 1)];
    ok := true;
  }

  /** The next difference, stored as an unsigned word. */
  lemma NextDelta(runs: seq<Run>, ds: seq<int>, i: nat)
    requires i < |ds| && Expand(runs) == Words(ds[..i])
    ensures Expand(runs) + [Uint32(Int32(ds[i]))] == Words(ds[..i + 1]) && Uint32(Int32(ds[i])) == Uint32(ds[i])
    ensures i > 0 && EndsWith(runs, Uint32(ds[i - 1])) ==>
              (EndsWith(runs, Uint32(Int32(ds[i]))) <==> Int32(ds[i]) == Int32(ds[i - 1]))
  {
    StoredWord(ds[i]);
    WordsNext(ds, i);
    if i > 0 { SameWord(ds[i], ds[i - 1]); }
  }

  lemma NextOffset(runs: seq<Run>, xs: seq<int>, i: nat)
    requires i < |xs| && Expand(runs) == SignedWords(xs[..i])
    ensures Expand(runs) + [Int32(xs[i])] == SignedWords(xs[..i + 1])
  {
    WordsNext(xs, i);
  }

  // ---- What the adjustment means ----

  /** Compressing the decoding times never makes the remaining delay larger,
      and the samples after the break need none of it. */
  lemma CompressionReducesDelay(mid: seq<SampleTime>, st: seq<SampleTime>, plain: int, delay: int, b: nat)
    requires LeastDelay(mid, plain) && |st| == |mid|
    requires Compressible(DtsOf(mid), plain) && Compressed(DtsOf(mid), DtsOf(st), plain, b)
    requires forall i :: 0 <= i < |st| ==> st[i].cts == mid[i].cts
    requires LeastDelay(st, delay)
    ensures delay <= plain
    ensures forall i :: b <= i < |st| ==> st[i].dts <= st[i].cts
  {
    forall i | 0 <= i < |st|
      ensures st[i].dts <= mid[i].dts
    {
      NeverRaised(DtsOf(mid), DtsOf(st), plain, b, i);
    }
    forall i | b <= i < |st|
      ensures st[i].dts <= st[i].cts
    {
      assert DtsOf(st)[i] == DtsOf(mid)[i] - plain;
    }
  }

  /** Times that increase from one that is not negative. */
  predicate Advancing(ts: seq<int>) {
    ts != [] && ts[0] >= 0 && GapsAtLeast(ts, 1)
  }

  /** Nothing is compressed, or compressing these times keeps their order. */
  predicate StaysInOrder(ts: seq<int>, compressed: bool, units: int) {
    compressed ==> Compressible(ts, units) && StaysOrdered(ts, units)
  }

  /** Composition times that strictly increase still do after the adjustment,
      so sorting by them again gives the same order, exactly if compressing
      them, where they are, keeps their order. */
  lemma AdjustmentKeepsOrder(ds: seq<int>, cs: seq<int>, ds': seq<int>, cs': seq<int>, bend: bool, audioDelay: int, units: int, delay: int)
    requires cs != [] && Prepared(ds, cs, ds', cs', bend, audioDelay, units)
    requires GapsAtLeast(cs, 1) && (bend && audioDelay < 0 ==> cs[0] >= 0) && (audioDelay > 0 ==> units >= 0)
    ensures StrictlyIncreasing(Shifted(cs', 0, delay)) <==> StaysInOrder(FromZero(cs), bend && audioDelay > 0, units)
  {
    if !bend || audioDelay == 0 {
      IncreasingSteps(Shifted(cs', 0, delay));
    } else if audioDelay > 0 {
      var from := FromZero(cs);
      var b :| Compressed(from, cs', units, b);
      CompressKeepsOrderIff(from, cs', units, b);
      ShiftKeepsOrder(cs', delay);
    } else {
      var es :| es != [] && DelayedTo(cs, es, -units) && cs' == FromZero(es);
      var b :| Delayed(cs, es, -units, b);
      DelayKeepsOrder(cs, es, -units, b);
      ShiftKeepsOrder(es, -es[0]);
      ShiftKeepsOrder(cs', delay);
    }
  }

  /** Decoding times that advance still do when they come to be compressed, and
      are in order afterwards exactly if compressing them keeps their order; if
      they are two units apart, exactly if the first stays first. */
  lemma DecodingKeepsOrder(ds: seq<int>, cs: seq<int>, ds': seq<int>, cs': seq<int>, audioDelay: int, units: int,
                           plain: int, ds'': seq<int>)
    requires cs != [] && Prepared(ds, cs, ds', cs', true, audioDelay, units)
    requires Advancing(ds) && plain >= 0 && CompressedTo(ds', ds'', plain)
    ensures Compressible(ds', plain) && (StrictlyIncreasing(ds'') <==> StaysOrdered(ds', plain))
    ensures GapsAtLeast(ds, 2) ==> (StrictlyIncreasing(ds'') <==> FirstStays(ds', plain))
  {
    PreparedAdvances(ds, cs, ds', cs', true, audioDelay, units, 1);
    if GapsAtLeast(ds, 2) {
      PreparedAdvances(ds, cs, ds', cs', true, audioDelay, units, 2);
      TwoUnitsStayOrdered(ds', plain);
    }
    var b :| Compressed(ds', ds'', plain, b);
    CompressKeepsOrderIff(ds', ds'', plain, b);
  }

  /** The first half of the adjustment keeps decoding times as far apart as
      they are. */
  lemma PreparedAdvances(ds: seq<int>, cs: seq<int>, ds': seq<int>, cs': seq<int>, bend: bool, audioDelay: int, units: int, d: nat)
    requires cs != [] && Prepared(ds, cs, ds', cs', bend, audioDelay, units)
    requires Advancing(ds) && d > 0 && GapsAtLeast(ds, d)
    ensures Advancing(ds') && GapsAtLeast(ds', d)
  {
    if bend && audioDelay < 0 {
      var b :| Delayed(ds, ds', -units, b);
      DelayKeepsGaps(ds, ds', -units, b, d);
    }
  }

  /** Five samples of 1000 units, the video a tenth of a second ahead: both
      axes are stretched, and composition then starts at 0. */
  lemma TenthAhead(ds: seq<int>, cs: seq<int>)
    requires Prepared([0, 1000, 2000, 3000, 4000], [1000, 2000, 3000, 4000, 5000], ds, cs, true, -100, -2400)
    ensures ds == [0, 2200, 4400, 5400, 6400] && cs == [0, 2200, 3800, 5400, 6400]
  {
    var b :| Delayed([0, 1000, 2000, 3000, 4000], ds, 2400, b);
    DelayedByTenth(ds, b);
    var es :| es != [] && DelayedTo([1000, 2000, 3000, 4000, 5000], es, 2400) && cs == FromZero(es);
    var b' :| Delayed([1000, 2000, 3000, 4000, 5000], es, 2400, b');
    DelayedLater(es, b');
  }

  /** Seven such samples, the video a tenth of a second behind: composition is
      squeezed and decoding stays. */
  lemma TenthBehind(ds: seq<int>, cs: seq<int>)
    requires Prepared([0, 1000, 2000, 3000, 4000, 5000, 6000], [500, 1500, 2500, 3500, 4500, 5500, 6500], ds, cs, true, 100, 2400)
    ensures ds == [0, 1000, 2000, 3000, 4000, 5000, 6000] && cs == [0, 500, 1000, 1500, 2000, 2600, 3600]
  {
    var from := FromZero([500, 1500, 2500, 3500, 4500, 5500, 6500]);
    assert from == [0, 1000, 2000, 3000, 4000, 5000, 6000];
    var b :| Compressed(from, cs, 2400, b);
    CompressedByTenth(cs, b);
  }

  /** Every way of sorting the samples by composition time is this index. */
  ghost predicate OnlyOrder(st: seq<SampleTime>, idx: seq<nat>) {
    forall other {:trigger IsPermutation(other, |st|)} ::
      IsPermutation(other, |st|) && NonDecreasing(CtsOf(st, other)) ==> other == idx
  }

  /** Presentation order survives the adjustment: if composition times strictly
      increase along the index before, sorting by the adjusted ones can only
      give that index again. */
  lemma PresentationKept(ds: seq<int>, cs: seq<int>, mid: seq<SampleTime>, st: seq<SampleTime>, idx: seq<nat>,
                         bend: bool, audioDelay: int, units: int, delay: int)
    requires |mid| == |st| && IsPermutation(idx, |st|) && cs != []
    requires Prepared(ds, cs, DtsOf(mid), CtsOf(mid, idx), bend, audioDelay, units)
    requires CtsOf(st, idx) == Shifted(CtsOf(mid, idx), 0, delay)
    requires GapsAtLeast(cs, 1) && (bend && audioDelay < 0 ==> cs[0] >= 0) && (audioDelay > 0 ==> units >= 0)
    ensures StrictlyIncreasing(CtsOf(st, idx)) <==> StaysInOrder(FromZero(cs), bend && audioDelay > 0, units)
    ensures StrictlyIncreasing(CtsOf(st, idx)) ==> OnlyOrder(st, idx)
  {
    AdjustmentKeepsOrder(ds, cs, DtsOf(mid), CtsOf(mid, idx), bend, audioDelay, units, delay);
    if StrictlyIncreasing(CtsOf(st, idx)) {
      forall other | IsPermutation(other, |st|) && NonDecreasing(CtsOf(st, other))
        ensures other == idx
      {
        SortIsUnique(st, idx, other);
      }
    }
  }

  lemma ShiftKeepsOrder(ts: seq<int>, d: int)
    ensures StrictlyIncreasing(Shifted(ts, 0, d)) <==> StrictlyIncreasing(ts)
  {
    var us := Shifted(ts, 0, d);
    if StrictlyIncreasing(us) {
      forall i, j | 0 <= i < j < |ts|
        ensures ts[i] < ts[j]
      {
        assert us[i] < us[j];
      }
    }
  }

  /** Divides the offset by 2, 3, and so on until the stretch is at most
      fourfold; `tries` holds the stretches computed. */
  method SearchScale(offset: int, off: int) returns (scale: real, ghost tries: seq<real>)
    requires offset >= 0 && off > 0
    ensures scale == DelayScale(offset, off)
    ensures tries != [] && tries[|tries| - 1] == scale <= 4.0
    ensures forall k :: 0 <= k < |tries| ==> tries[k] == (offset as real / (k + 2) as real + off as real) / off as real
    ensures forall k :: 0 <= k < |tries| - 1 ==> tries[k] > 4.0
    ensures (offset as real / 2.0 + off as real) / off as real <= 4.0 ==>
              scale == (offset as real / 2.0 + off as real) / off as real
  {
    var factor := 2;
    scale := StretchAt(offset, off, factor);
    while scale > 4.0
      invariant factor >= 2 && scale == StretchAt(offset, off, factor)
      invariant DelayFactor(offset, off, 2) == DelayFactor(offset, off, factor)
      decreases offset - factor
    {
      if factor >= offset { StretchSettles(offset, off, factor); }
      factor := factor + 1;
      scale := StretchAt(offset, off, factor);
    }
    tries := DelayScaleIsTried(offset, off);
  }
}
