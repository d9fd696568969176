# mp4fpsmod, modelled and proved in Dafny

mp4fpsmod rewrites the timing of the video track of an MP4 file. This project
models the parts of it that compute something, and proves what they compute,
for all inputs. `dafny verify dfyconfig.toml` checks everything.

The model takes the program's form. Objects whose methods update their fields
are classes (`TrackEditor`, `Scanner`, `FileCopy`, `Options`, `RootAtom`,
`BitIO`, `File`, `Timecode`), and their methods are proved against functions
and predicates over values, about which the laws are then proved as lemmas.
What an operation computes is also stated without the function its method is
proved against: in plain numbers, bytes or words, by an independent reader, or by
a rule that goes by the input alone, with worked examples beside it.
Numbers of type `double` are exact reals. A 64-bit number is an unbounded
integer; where a value is cut down to 32 bits, or a box's end to 64, the cut is
modelled.

**The timecode editor.** `SampleOrder` holds decoding and composition times and
the index that lists samples in composition order. `FrameRates` and
`FrameTimes` turn frame rates into a time scale and times; `TimeBend` squeezes
or stretches the start of a timeline; `RunTables` has the run-length tables of
sections 8.6.1.2 and 8.6.1.3 of ISO/IEC 14496-12. `TrackEditing` puts them
together as the class `TrackEditor`, and `TrackRoundTrip` says what a saved
track gives when it is loaded again. Main results: after `AdjustTimeCodes` no
sample decodes after it is composed, with the least shift that achieves this, and
compressing decoding times never makes that shift larger;
samples are presented in the order they were in before, and can be sorted in no
other; saving and loading restores a track exactly when its first differences
can be counted and all of them fit the tables' fields.

**The argument scanner.** `Rotation` is the in-place exchange of two blocks by
gcd cycles. `OptionGrammar` says what the options of a vector are if it is never
permuted, and `ArgScanner` proves that the permuting, resumable scanner reports
exactly those and leaves the vector stably partitioned. `ArgSpelling` says the
same from the caller's side: a vector spelled from operands, clusters and long
options is reported as what it means, and ends sorted into options and operands.

**Boxes.** `ByteFile` is a file in memory. `Atoms` writes trees of boxes with
sizes patched in afterwards, `AtomParser` reads them from any bytes, wherever
their sizes lead, and `AtomRoundTrip` connects the two. `OptimalLayout` writes a
movie with its index first and rewrites the index into the space reserved for
it, which is proved to suffice; `LayoutReads` proves what the finished file
reads as.

**Codings.** `BitFile`, `MpegLengths`, `CountedStrings` and `Descriptors` are
bits, lengths, strings and descriptors, each with its round trip. `Utf8` is the
conversion of file names to UTF-16, `Smpte` and `SmpteTimecode` are timecodes of
hours, minutes, seconds and frames.

**Lists of timecodes and the copy.** `TimecodeGroups` divides frame durations
into the fewest groups of nearly equal ones, `TimecodeAverages` averages them
without losing time, `TimecodeScales` chooses their time scale. `ChunkMerge`
copies the chunks of all tracks in the order of time.

Promises the program does not keep for every input are stated with the exact
condition under which it keeps them, and with inputs that break them:

- Boxes lie inside their parents and siblings abut exactly as long as no header
  leads back: the end of a box is a 64-bit sum, which wraps exactly when it does
  not lie behind the box's start (`AtomParser.EndIsAheadIff`,
  `AtomParser.TiledIffStraight`). Two boxes in 24 bytes are read for ever
  (`AtomParser.ReadsForEver`).
- User data beside the index survives the optimal layout exactly when rewriting
  changes the index's size; otherwise a free box takes its place
  (`LayoutReads.UserDataKeptIff`, `LayoutReads.LoseUserData`).
- Saving and loading restores a track exactly when the first difference is not
  -1 and the first composition offset not -2^31 as 32-bit numbers, decoding
  starts at 0, every number fits its field, and samples are composed when they
  decode if the track keeps no offsets (`TrackRoundTrip.SaveAndLoad`,
  `TrackRoundTrip.FirstDifferenceIsLost`, `TrackRoundTrip.FirstOffsetIsLost`,
  `TrackRoundTrip.LateOffsetIsLost`).
- Without overflow, automatic time scales are exact exactly when the smallest
  denominator is at least 100, or what it leaves of 100 is small enough
  (`FrameRates.AutoScaleExact`, `FrameRates.BoostExactIff`,
  `FrameRates.RefiningLosesExactness`). An overflow that is noticed gives 1000;
  not every one is (`FrameRates.OverflowUnnoticed`).
- A movie too long for 31 bits fits after the fallback to a coarser scale exactly
  when ten times its running time rounds to at most 0x7fffffff
  (`TrackEditing.FallbackHolds`, `TrackEditing.FallbackMayNotFit`). That scale is
  a power of ten up to a limit of 10^9; beyond, the search wraps at 32 bits
  (`TrackEditing.FallbackWraps`).
- Squeezing a timeline of increasing times keeps its order exactly when its first
  time stays below the squeezed second one, and, before the place where shifting
  takes over, between any two neighbours whose scaled times collide some step
  rises by two or more. Both can be told from the times and the offset alone
  (`TimeBend.CompressKeepsOrderIff`). Samples of two units or more never collide,
  so that only a late start can put them out of order
  (`TimeBend.CompressKeepsOrder`, `TimeBend.LateStartLosesOrder`,
  `TimeBend.SingleUnitsLoseOrder`).
- Averaging keeps the end of a group exactly when no step up to it loses a unit
  because rounding is towards zero. A step does unless it ends at -1/2 or above,
  half-way between two whole numbers, or more than half a unit below the rounded
  time before it
  (`TimecodeAverages.BoundariesConserved`). Timecodes that start above -3/2 lose
  none (`TimecodeAverages.NearZeroIsKept`,
  `TimecodeAverages.NegativeStartLosesTime`).
- Rescaling timecodes to an automatic coarser scale keeps the times exactly when
  the power of ten divides the old scale (`TimecodeScales.AutomaticKeepsTimesIff`,
  `TimecodeScales.LongMovieLosesTime`).
- A copy contains every chunk exactly when no chunk outside a hint track has
  the invalid time (`ChunkMerge.AllCopiedIff`, `ChunkMerge.InvalidTimeBlocks`).
- Descriptors state the sizes of their bodies exactly when none is longer than
  28 bits; lengths are cut to 32 bits before they are refused
  (`Descriptors.WrittenIsExact`, `Descriptors.LongBodyIsCut`).
- A file name in UTF-8 becomes its UTF-16 form exactly when none of its code
  points is a surrogate, U+FFFE or U+FFFF (`Utf8.WellFormedConverts`).
- Counted strings and printed timecodes come back exactly within stated bounds
  (`CountedStrings.ExpandedRoundTrip`, `CountedStrings.PlainRoundTrip`,
  `CountedStrings.FixedRoundTrip`, `Smpte.PrintedReads`,
  `SmpteTimecode.ReadBack`).

## Model

| member | source | states |
|---|---|---|
| Rotation.OrbitInjective | src/getopt.c:168-198 | before it closes, a cycle of the block exchange visits no offset twice |
| Rotation.OrbitCloses | src/getopt.c:168-198 | every cycle is back at its start after (n+m)/gcd hops |
| Rotation.OrbitClass | src/getopt.c:168-198 | a cycle never leaves the residue class of its start modulo the gcd, so cycles are disjoint |
| Rotation.OrbitCovers | src/getopt.c:168-198 | a cycle reaches every offset of that class, so the gcd cycles cover the whole range |
| Rotation.CycleRoute | src/getopt.c:183-190 | the cycle that starts at the i-th option is a closed route without repetition through exactly residue class i |
| Rotation.RotationSettled | src/getopt.c:163-167 | moving every element to its target and nothing else is the exchange of the two blocks, each in its order |
| Rotation.IterativeGcd | src/getopt.c:148-161 | the loop computes the greatest common divisor of the recursive definition |
| Numbers.GcdDivides | src/mp4trackx.cpp:14 | the recursive greatest common divisor divides both numbers |
| Numbers.Bezout | src/mp4trackx.cpp:14 | it is an integer combination of them, so every common divisor divides it |
| Rotation.CarryCycle | src/getopt.c:186-196 | one cycle moves every element of its route one place along and touches nothing else |
| Rotation.PermuteArgs | src/getopt.c:168-198 | the vector ends as `a[..start] + a[mid..end] + a[start..mid] + a[end..]`, for all block lengths of at least 1 |
| OptionGrammar.Resolve | src/getopt.c:246-285 | an exact name wins; a key that abbreviates no name is unknown; one that abbreviates entries that are not interchangeable, and is no name, is ambiguous; otherwise it stands for an entry it abbreviates |
| OptionGrammar.LetterObeys | src/getopt.c:561-582 | the outcome of a letter obeys the rule for letters, which goes by the colons after it in the option string and by what stands behind it |
| OptionGrammar.EntryObeys | src/getopt.c:286-363 | the outcome of an entry of the table obeys the rule for entries, which goes by its kind of argument, what is given after the equals sign, and the next element |
| OptionGrammar.LongObeys | src/getopt.c:205-364 | the outcome of a long option obeys the rule for the key before its first equals sign |
| OptionGrammar.OptionObeys | src/getopt.c:488-583 | whatever the option, its outcome obeys the rule for it |
| OptionGrammar.SelectComplement | src/getopt.c:410-487 | selecting by marks and by their complement loses and repeats no element |
| ArgScanner.PartitionKeepsElements | src/getopt.c:410-487 | a partitioned vector is a permutation of the given one, with `optind` inside it |
| ArgScanner.LayoutOption | src/getopt.c:467-468 | scanning an option's elements keeps the skipped non-options in [nonopt_start, nonopt_end) with the options since behind them |
| ArgScanner.LayoutNonOption | src/getopt.c:454-463 | skipping a non-option extends the one block of skipped non-options |
| ArgScanner.LayoutPermute | src/getopt.c:456-462 | exchanging the block with the options scanned since keeps the layout, with no option behind the block |
| ArgScanner.LayoutFinal | src/getopt.c:413-430 | at the end of a scan the layout is the stable partition, and the block's start is the first non-option |
| ArgScanner.ScanOption | src/getopt.c:488-583 | reading one option keeps the layout and the marks in step and takes exactly one outcome off those to come |
| ArgScanner.Scanner.constructor | src/getopt.c:400-405 | a scan begins with nothing skipped, at the given `optind`, or at 1 if that is 0 |
| ArgScanner.Scanner.ResolveLong | src/getopt.c:246-285 | the loop over the long options finds what the grammar resolves: exact, first partial, ambiguous or unknown |
| ArgScanner.Scanner.ParseLongOptions | src/getopt.c:205-364 | a long option is reported as the unpermuted vector has it, by the rules for its key, what follows the equals sign, and the entry it stands for |
| ArgScanner.Scanner.TakeFound | src/getopt.c:286-363 | a matched long option: its argument after the equals sign or, if required, in the next element, which is then passed; a missing or a forbidden one; its index and its flag |
| ArgScanner.Scanner.ParseShortOption | src/getopt.c:518-582 | an option letter is reported by the rule for letters, for strangers or for `W;`, with what is left of its cluster |
| ArgScanner.Scanner.ParsePrefix | src/getopt.c:541-559 | `W;` hands the rest of the element, or the next one, to the long options |
| ArgScanner.Scanner.ParseLetter | src/getopt.c:561-582 | a known letter without a colon has no argument and the rest of its cluster follows; with one it takes that rest, or the next element, behind which `optind` then stands; with two only the rest; a missing argument is reported with the letter in `optopt` |
| ArgScanner.Scanner.ExchangeSkipped | src/getopt.c:456-462 | the exchange in the live vector keeps the layout and moves the block up to `optind` |
| ArgScanner.Scanner.SkipNonOptions | src/getopt.c:431-466 | the scan passes all non-options ahead, moves the skipped ones along, and no call to come changes |
| ArgScanner.Scanner.ScanEnd | src/getopt.c:413-430 | at the end of the vector it is partitioned by its marks, and no mark is added |
| ArgScanner.Scanner.ScanTerminator | src/getopt.c:470-487 | at `--` it is partitioned by its marks: `--` counts among the options, and all that follows among the non-options |
| ArgScanner.Scanner.Finish | src/getopt.c:413-430 | ending a scan leaves the vector partitioned, `optind` at the first non-option, and no block |
| ArgScanner.Scanner.NextElement | src/getopt.c:410-488 | the first element from here on that looks like an option is entered behind its dash, unless `--` or the end of the vector comes first; then the calls to come are over, nothing but non-options was passed, and the vector is partitioned by its marks |
| ArgScanner.Scanner.GetoptLong | src/getopt.c:610-617 | every call reports the next option of the vector as given, however much has been permuted, by the rule for that option where it stands, and marks exactly the elements it takes; the last returns -1 and leaves a stable partition |
| ArgScanner.ScanAll | src/main.cpp:471-514 | a whole run reports all options of the unpermuted vector in order and ends with options and their arguments first, non-options after, `optind` between them |
| ArgSpelling.ItemGoes | src/getopt.c:488-583 | an operand, a cluster of letters or a long option, spelled as a caller would, with its argument joined, apart or left out, is reported as what it means and passed whole |
| ArgSpelling.VectorUnderstood | src/getopt.c:410-583 | a vector of such items is reported item by item; the marks part its words into those of options, with `--`, and those of operands |
| ArgSpelling.ScanSpelled | src/main.cpp:471-514 | a run over such a vector gives what its items mean, in order, and leaves first the words of options with their arguments, then the operands, each in their order, with `optind` between them |
| TimeBend.CompressKeepsOrder | src/mp4trackx.cpp:219-235 | with gaps of at least 2, compression keeps the order exactly when the first time stays below the squeezed second one, which it does from 0; no time is raised |
| TimeBend.NeverRaised | src/mp4trackx.cpp:226-234 | compression raises no time, for all times that increase from any that is not negative |
| TimeBend.BreakAtOnce | src/mp4trackx.cpp:226-228 | shifting takes over at the first step only when there is nothing to lose |
| TimeBend.LateStartLosesOrder | src/mp4trackx.cpp:225 | [100, 140, 180] less 100, which ends as [100, 82, 105] |
| TimeBend.CompressedIs | src/mp4trackx.cpp:219-235 | compression has one outcome, which a function of times and offset gives |
| TimeBend.CompressedMeans | src/mp4trackx.cpp:219-235 | in plain numbers: the scale is off/(offset + off) or one half, times before the break are multiplied, rounded and kept apart, and from the first time that is far enough the offset is taken off |
| TimeBend.CompressedByTenth | src/mp4trackx.cpp:219-235 | [0, 1000, ..., 6000] less 2400 is [0, 500, 1000, 1500, 2000, 2600, 3600] |
| TimeBend.CompressByZero | src/mp4trackx.cpp:219-235 | compressing by nothing changes nothing, whatever the gaps |
| TimeBend.CompressLosesAtMostOffset | src/mp4trackx.cpp:219-235 | if no gap from the second time on is smaller than that time, no time loses more than the offset |
| TimeBend.CompressKeepsOrderIff | src/mp4trackx.cpp:219-235 | for times that increase from any that is not negative, the order is kept exactly when the first time stays first and, up to a break that can be told in advance, scaled times leap between any two that collide |
| TimeBend.SpacedToTheBreak | src/mp4trackx.cpp:226-232 | collisions are spaced up to where the loop breaks off exactly when they are up to the break told in advance |
| TimeBend.SqueezedAt | src/mp4trackx.cpp:226-232 | with gaps of at least 2, before the break every time is the rounded scaled one, and the increment for equal neighbours is never needed |
| TimeBend.SingleUnitsLoseOrder | src/mp4trackx.cpp:229-231 | a timeline with gaps of 1 that compression puts out of order |
| TimeBend.DelayFactor | src/mp4trackx.cpp:246-249 | the scale search ends for every offset, at the first factor that stretches at most fourfold |
| TimeBend.DelayScale | src/mp4trackx.cpp:243-249 | the stretch lies between 1 and 4 |
| TimeBend.DelayScaleIsTried | src/mp4trackx.cpp:243-249 | the scale is the last of (offset/2 + off)/off, (offset/3 + off)/off and so on, up to the first that is at most 4 |
| TimeBend.DelayedIs | src/mp4trackx.cpp:239-260 | in plain numbers: times before the break are multiplied and rounded, which delays them by less than the offset; from the first that would be delayed by more the offset is added |
| TimeBend.DelayedByTenth | src/mp4trackx.cpp:239-260 | [0, 1000, 2000, 3000, 4000] delayed by 2400 is [0, 2200, 4400, 5400, 6400] |
| TimeBend.DelayedLater | src/mp4trackx.cpp:239-260 | [1000, 2000, 3000, 4000, 5000] delayed by 2400 is [1000, 3200, 4800, 6400, 7400] |
| TimeBend.DelayKeepsOrder | src/mp4trackx.cpp:240-260 | delaying keeps a strictly increasing timeline so, from any first time that is not negative, and moves every time up by at most the offset |
| TimeBend.DelayKeepsGaps | src/mp4trackx.cpp:240-260 | delaying brings no neighbours closer together than any bound they kept |
| RunTables.CanonicalIsShortest | src/mp4trackx.cpp:343-390 | a table of positive counts without equal neighbours is the one shortest table of its values |
| RunTables.CountNext | src/mp4trackx.cpp:356-365 | counting one more value keeps a table free of redundancy and appends that value to what it stands for |
| RunTables.DecodeRoundTrip | src/mp4trackx.cpp:100-116 | decoding what was encoded restores the times if and only if they start at 0 and no difference leaves 32 bits |
| FrameRates.NormalizeFPSRange | src/mp4trackx.cpp:141-157 | open ranges are given what is left; the list is accepted exactly when the counts add up to the movie |
| FrameRates.OpenRangeTakesTheRest | src/mp4trackx.cpp:145-154 | an open last range keeps all given counts and is accepted exactly when they fit the movie |
| FrameRates.LcmLeast | src/mp4trackx.cpp:16 | every common multiple is a multiple of the computed one |
| FrameRates.RepresentsIff | src/mp4trackx.cpp:165-177 | a scale is a multiple of all reduced numerators exactly when it is a multiple of the computed least common one |
| FrameRates.BoostExactIff | src/mp4trackx.cpp:178-179 | the refined scale still is one, if and only if the smallest denominator is at least 100 or leaves little enough of 100 |
| FrameRates.MinDenomIs | src/mp4trackx.cpp:163-170 | the denominator that decides about refining is the least one in lowest terms |
| FrameRates.RefiningLosesExactness | src/mp4trackx.cpp:178-179 | thirty frames in seven seconds, which the refined scale no longer represents |
| FrameRates.AutoScaleExact | src/mp4trackx.cpp:159-181 | if the refined least common multiple is a 31-bit number, no overflow is noticed and it is the automatic scale |
| FrameRates.OverflowUnnoticed | src/mp4trackx.cpp:170-177 | two rates whose product wraps without being noticed, and whose automatic scale represents neither |
| FrameRates.CalcStep | src/mp4trackx.cpp:164-177 | one step reduces a rate, wraps the product as 32 bits do, and notices when it is lost |
| FrameRates.CalcTimeScale | src/mp4trackx.cpp:159-181 | the scale is the refined product, wrapped at 32 bits, and 1000 exactly if the loop notices that it is lost; if it does not, all rates end in lowest terms |
| FrameTimes.NoDrift | src/mp4trackx.cpp:183-200 | every frame is within half a unit of the exact time of the ranges and frames before it, however many there are |
| FrameTimes.FrameLasts | src/mp4trackx.cpp:183-200 | the exact time rises by scale * denom / num from each frame of a range to the next, and from its last to the first of the range after it |
| FrameTimes.ReducedOffsets | src/mp4trackx.cpp:166-168 | reducing rates, all or some, changes no time |
| FrameTimes.ExactIff | src/mp4trackx.cpp:183-200 | all times are exact if and only if the scale is a multiple of every reduced numerator |
| FrameTimes.AutomaticScaleExactIff | src/mp4trackx.cpp:159-200 | times at the automatic scale are exact if and only if refining it was harmless |
| FrameTimes.FramesIncrease | src/mp4trackx.cpp:189-197 | frames that last at least one unit are at least one unit apart |
| FrameTimes.RoundedIncrease | src/mp4trackx.cpp:192-193 | times at least a unit apart stay strictly increasing when rounded |
| FrameTimes.DurationIsScaled | src/mp4trackx.cpp:183-200 | the exact duration is the running time in seconds times the scale |
| FrameTimes.PowerBelow | src/mp4trackx.cpp:80-83 | the search in 32 bits: up to a limit of 10^9 it finds the largest power of ten below the limit, but at least 10; up to 4135583744 some scale below the limit; beyond, it would never end |
| FrameTimes.WrappedTens | src/mp4trackx.cpp:81-83 | no power of ten, cut down to 32 bits, is more than 4135583744, and exactly those from the thirty-second on are 0 |
| FrameTimes.FallbackFits | src/mp4trackx.cpp:79-85 | at a scale below the limit the rounded duration is at most 0x7fffffff |
| FrameTimes.FallbackTooFine | src/mp4trackx.cpp:79-85 | at a scale not below the limit it is at least 0x7fffffff |
| SampleOrder.SortByCts | src/mp4trackx.cpp:64-66 | the index is a permutation along which composition times do not decrease |
| SampleOrder.SortIsUnique | src/mp4trackx.cpp:58-67 | where composition times strictly increase along an index, sorting again gives that index |
| SampleOrder.LatestIsLast | src/mp4trackx.cpp:118-139 | an entry composed after all others is last in every sorted order |
| TrackEditing.Track.UpdateElst | src/mp4trackx.cpp:392-405 | all edits are deleted, and one is added at the media time, with the duration of the track header, unless that time is 0 |
| TrackEditing.TrackEditor.constructor | src/mp4trackx.cpp:58-67 | the samples loaded are those of the tables, with the entry that keeps the last duration, sorted by composition time |
| TrackEditing.LoadedThree | src/mp4trackx.cpp:100-139 | three samples, the second composed last, load with an entry that follows it by the last duration |
| TrackEditing.TrackEditor.AudioDelayInTimeScale | src/mp4trackx.h:126-129 | milliseconds become units of the time scale, cut towards zero |
| TrackEditing.TrackEditor.LoadDTS | src/mp4trackx.cpp:100-116 | decoding times are the partial sums of the table's values |
| TrackEditing.TrackEditor.LoadCTS | src/mp4trackx.cpp:118-139 | composition times are decoding times plus the table's offsets, and the extra entry is composed its duration after the latest of them |
| TrackEditing.TrackEditor.SetTimeCode | src/mp4trackx.h:102-103 | writing through either accessor changes one entry of that axis and nothing of the other |
| TrackEditing.TrackEditor.SqueezeUntilCaughtUp | src/mp4trackx.cpp:226-232 | the loop squeezes exactly up to the first time from which the shifted timeline has caught up |
| TrackEditing.TrackEditor.ShiftFrom | src/mp4trackx.cpp:233-234 | from an index on all times of one axis move, and no other time |
| TrackEditing.TrackEditor.CompressTimeCodes | src/mp4trackx.cpp:219-235 | one axis is compressed, squeezed before a break and shifted from it on, and the other is untouched |
| TrackEditing.TrackEditor.DelayTimeCodes | src/mp4trackx.cpp:239-260 | one axis is delayed, stretched before a break and shifted from it on, and the other is untouched |
| TrackEditing.SearchScale | src/mp4trackx.cpp:246-249 | the search ends with (offset/f + off)/off for the first whole f from 2 on that makes it at most 4: with (offset/2 + off)/off whenever that is at most 4 |
| TrackEditing.TrackEditor.SetTimeCodes | src/mp4trackx.cpp:89-98 | both axes take the rounded list, or nothing changes if it has the wrong length |
| TrackEditing.TrackEditor.CalcSampleTimes | src/mp4trackx.cpp:183-200 | both axes take the rounded exact times of the rates, and the duration is the last of them |
| TrackEditing.TrackEditor.SetFPS | src/mp4trackx.cpp:69-87 | both axes take the rounded times at the scale asked for, kept or chosen; a chosen one is the refined least common multiple if that is a 31-bit number, and is kept if the duration fits 31 bits; otherwise a fallback takes its place, at which the last time is at most 0x7fffffff where it can be; refused ranges change nothing |
| TrackEditing.TrackEditor.ChooseScale | src/mp4trackx.cpp:71-76 | the scale asked for, the one in use, or the automatic one, wrapped or not |
| TrackEditing.TrackEditor.FitDuration | src/mp4trackx.cpp:77-86 | times at the first scale, or at the fallback exactly when the scale is free and the duration leaves 31 bits |
| TrackEditing.FallbackHolds | src/mp4trackx.cpp:79-85 | the fallback is the scale the search ends with, and brings the duration under 31 bits exactly when ten times the running time is at most 0x7fffffff when rounded |
| TrackEditing.LimitIsLower | src/mp4trackx.cpp:80 | the limit is never above the scale it is computed from |
| TrackEditing.FallbackWraps | src/mp4trackx.cpp:79-85 | three frames at 2000000001 units a second, measured at 356758732 in the end |
| TrackEditing.FallbackMayNotFit | src/mp4trackx.cpp:79-85 | a movie whose duration leaves 31 bits even at the fallback |
| TrackEditing.TrackEditor.OffsetCTS | src/mp4trackx.cpp:262-267 | every composition time is shifted, sample by sample, and no decoding time |
| TrackEditing.TrackEditor.CalcInitialDelay | src/mp4trackx.cpp:202-211 | the least delay, not negative, after which no sample decodes after it is composed |
| TrackEditing.TrackEditor.DelayBoth | src/mp4trackx.cpp:275-281 | a negative audio delay delays both axes by the same amount |
| TrackEditing.TrackEditor.StartAtZero | src/mp4trackx.cpp:282-283 | composition is counted from its first time |
| TrackEditing.TrackEditor.PrepareTimeCodes | src/mp4trackx.cpp:275-285 | the audio delay's sign decides which axes are bent, and composition starts at 0 |
| TrackEditing.TrackEditor.SettleTimeCodes | src/mp4trackx.cpp:286-291 | decoding is compressed by the delay it would need, and composition shifted by the least that is left |
| TrackEditing.TrackEditor.AdjustTimeCodes | src/mp4trackx.cpp:269-292 | under every mix of options each sample decodes no later than it is composed, by the least shift, which compression does not enlarge, and composition starts at the initial delay; without compression decoding times stay and composition times move together; presentation order is kept, and is the only one, exactly if compressing composition times, where it is done, keeps their order; decoding times stay in order exactly if compressing them keeps their order |
| TrackEditing.TenthAhead | src/mp4trackx.cpp:275-285 | five samples with a delay of -100 ms: both axes half-way, number by number |
| TrackEditing.TenthBehind | src/mp4trackx.cpp:275-285 | seven samples with a delay of 100 ms: both axes half-way, number by number |
| TrackEditing.CompressionReducesDelay | src/mp4trackx.cpp:286-290 | compressing any decoding times that increase never enlarges the residual delay, and samples after the break need none |
| TrackEditing.AdjustmentKeepsOrder | src/mp4trackx.cpp:269-292 | composition times that increased along the index still do after the adjustment exactly if compressing them, where it is done, keeps their order |
| TrackEditing.PresentationKept | src/mp4trackx.cpp:269-292 | every permutation sorted by the adjusted composition times is the index from before, whenever they still increase along it |
| TrackEditing.DecodingKeepsOrder | src/mp4trackx.cpp:269-292 | decoding times that increase come out so exactly if compressing them half-way keeps their order; with gaps of two, exactly if the first stays first |
| TrackEditing.TrackEditor.UpdateStts | src/mp4trackx.cpp:343-367 | the table is written exactly unless the first difference is -1 as a 32-bit word, has no redundancy, and stands for the differences of decoding times |
| TrackEditing.TrackEditor.UpdateCtts | src/mp4trackx.cpp:369-390 | the table is written exactly unless the first offset is -2^31 as a signed word, has no redundancy, and stands for the composition offsets of the real samples |
| TrackEditing.TrackEditor.UpdateTables | src/mp4trackx.cpp:321-324 | both tables are written, composition offsets only if the track had some, exactly when their first values can be counted |
| TrackEditing.CountValue | src/mp4trackx.cpp:357-365 | one more value is counted in the last run or opens a new one, without redundancy; it fails exactly if there is no run to count it in |
| TrackEditing.TrackEditor.EditTrack | src/mp4trackx.cpp:299-328 | scale, duration from the first sample composed to the end of the last, tables, and one edit at the initial delay plus, if compression is off, a positive audio delay in units of the scale, or none if that sum is 0; if a table cannot be written the edit list stays |
| TrackEditing.TrackEditor.EditSound | src/mp4trackx.cpp:330-340 | each sound track gets one edit at the negated audio delay in its own units if compression is off and the delay negative, none otherwise, and keeps its tables |
| TrackEditing.TrackEditor.DoEditTimeCodes | src/mp4trackx.cpp:294-341 | both together, for the video track and every sound track; if a table cannot be written no edit list changes |
| TrackRoundTrip.DecodingRestored | src/mp4trackx.cpp:100-116 | loading a saved table restores decoding times if and only if they start at 0 and their differences fit |
| TrackRoundTrip.TablesRestore | src/mp4trackx.cpp:343-390 | loading tables that were written restores every real sample if and only if differences and composition offsets fit their fields, or are 0 where no offsets are kept |
| TrackRoundTrip.SaveAndLoad | src/mp4trackx.cpp:58-67 | a track saved and loaded again is the same exactly when its first values can be counted and all numbers fit |
| TrackRoundTrip.FirstDifferenceIsLost | src/mp4trackx.cpp:343-367 | two samples 2^32 - 1 apart, whose difference fits and cannot be written |
| TrackRoundTrip.FirstOffsetIsLost | src/mp4trackx.cpp:369-390 | a first composition offset of -2^31, which fits and cannot be written |
| TrackRoundTrip.LateOffsetIsLost | src/mp4trackx.cpp:369-390 | a first composition offset of 2^31, which as a 32-bit word is the same, and can be neither stored nor written |
| TrackRoundTrip.SentinelIsLast | src/mp4trackx.cpp:113-137 | the entry that keeps a positive last duration is last in composition order |
| TimecodeGroups.GreedyStaysAhead | src/main.cpp:99-127 | after the same number of groups a greedy split has covered at least as much as any other |
| TimecodeGroups.GreedyIsShortest | src/main.cpp:99-127 | no split into groups within some [n, n+1] has fewer groups than a greedy one |
| TimecodeGroups.GroupbyAdjacent | src/main.cpp:106-127 | the loop gives non-empty groups within some [n, n+1] that concatenate to the input, as few as possible |
| TimecodeGroups.DocumentedGroups | src/main.cpp:99-105 | the groups that the comment gives for 1, 2, 1, 1, 2, 3, 2, 3, 3, 2, 1, 1, 2 are a split, and none is shorter |
| TimecodeAverages.DeltasTelescope | src/main.cpp:131-138 | rounded frame durations add up to differences of rounded times, less the units lost on the way |
| TimecodeAverages.BoundariesConserved | src/main.cpp:129-162 | at the end of every group the new timecode is the old one rounded, counted from the first rounded, less the units lost; it is exactly that one if and only if no step up to it loses one |
| TimecodeAverages.DeltaStep | src/main.cpp:133-138 | a step between two timecodes is kept, or loses one unit, exactly by where it ends |
| TimecodeAverages.NearZeroIsKept | src/main.cpp:133-138 | timecodes from above -1.5 on lose nothing |
| TimecodeAverages.NegativeStartLosesTime | src/main.cpp:133-138 | timecodes from -1.5 on that lose a unit |
| TimecodeAverages.AverageWithin | src/main.cpp:143-148 | the average of a group lies in the interval [n, n+1] its durations lie in |
| TimecodeAverages.SpreadIncreasesIff | src/main.cpp:156-161 | the averaged timecodes strictly increase if and only if all averages are positive |
| TimecodeAverages.CalcDeltas | src/main.cpp:132-138 | every frame's duration is counted from the rounded time of the frame before |
| TimecodeAverages.CalcAverages | src/main.cpp:143-148 | each average, repeated for its group, lasts exactly as long as the group |
| TimecodeAverages.Options.AverageTimecode | src/main.cpp:129-162 | the timecodes become those of the averages of a shortest grouping |
| TimecodeAverages.Options.SpreadOut | src/main.cpp:156-161 | timecodes from 0 on, each average repeated for its frames |
| TimecodeAverages.Options.AddLast | src/main.cpp:216-220 | if just the last timecode is missing one is added, as far from the last as that is from the one before it; nothing changes otherwise |
| TimecodeAverages.Options.ReadStamps | src/main.cpp:199-213 | lines are accepted exactly when their timecodes, up to the count, strictly increase |
| TimecodeAverages.Options.ParseTimecodeV2 | src/main.cpp:194-223 | a file is accepted exactly when it has timecodes and they strictly increase; a missing last one is added, and averaging applied if asked for |
| TimecodeScales.SearchFactor | src/main.cpp:172-182 | the loops end with a power of ten: the largest that makes a duration over 31 bits fit; at fewer than 100 units the last that stays below 10000 units and below 31 bits; 1 otherwise |
| TimecodeScales.AutomaticFits | src/main.cpp:172-182 | at an automatic scale the duration is at most 0x7fffffff |
| TimecodeScales.AutomaticKeepsTimesIff | src/main.cpp:189-191 | an automatic scale keeps all times in seconds if and only if it is not coarser or the power of ten divides the old one |
| TimecodeScales.RequestedKeepsTimes | src/main.cpp:184-191 | a scale that is asked for or kept is met exactly and keeps all times |
| TimecodeScales.LongMovieLosesTime | src/main.cpp:173-176 | a movie at 1001 units a second whose times change |
| TimecodeAverages.Options.RescaleTimecode | src/main.cpp:164-192 | timecodes and scale change together with all of the above, the scale to the one asked for or the movie's own if it is given, and a list of fewer than two is left alone |
| ChunkMerge.BestIsUnique | src/mp4filex.cpp:58-74 | the rule for the next chunk names one track |
| ChunkMerge.ChosenIffTurn | src/mp4filex.cpp:58-74 | the chunk chosen is the earliest on offer, and of equally early ones that of the last hint track, or of the first track if none is a hint track; and no other |
| ChunkMerge.ScanNext | src/mp4filex.cpp:58-74 | looking at one more track keeps the choice the best so far, hint tracks winning ties |
| ChunkMerge.AllCopiedIff | src/mp4filex.cpp:13-22 | a finished copy has as many chunks as were counted if and only if none was unusable |
| ChunkMerge.CopiedAsFarAsPossible | src/mp4filex.cpp:53-87 | when no track has a chunk to offer, each is copied up to its first unusable chunk |
| ChunkMerge.InvalidTimeBlocks | src/mp4filex.cpp:62-71 | a track of two chunks of which only the first is copied |
| ChunkMerge.MergedNext | src/mp4filex.cpp:76-85 | copying the chosen chunk leaves none behind that is earlier, if each track's times are ordered |
| ChunkMerge.FileCopy.constructor | src/mp4filex.cpp:8-23 | nothing is copied, and the chunks of all tracks are counted |
| ChunkMerge.FileCopy.ChooseTrack | src/mp4filex.cpp:55-75 | the scan with cached times chooses by the rule on recomputed times, and finds no track only when none has a chunk to offer |
| ChunkMerge.FileCopy.CacheTime | src/mp4filex.cpp:62-66 | the cached time of a track is that of its next chunk, and no progress is lost |
| ChunkMerge.FileCopy.CopyFrom | src/mp4filex.cpp:76-85 | a chunk of the chosen track is copied, its count goes up by one and its cached time is dropped |
| ChunkMerge.FileCopy.CopyNextChunk | src/mp4filex.cpp:53-87 | a call copies the next chunk of the track whose turn it is, or changes nothing that is copied |
| ChunkMerge.CopyAll | src/main.cpp:405-408 | a run copies each track's chunks once and in order, every chunk when it is its track's turn, with one true result a chunk, in order of time if each track is |
| ByteFile.NumberOfBigEndian | mp4v2/src/mp4file_io.cpp:189-254 | a number written in k bytes is read back |
| ByteFile.BigEndianOfNumber | mp4v2/src/mp4file_io.cpp:182-254 | any k bytes are what writing the number they read as gives |
| ByteFile.DigitAt | mp4v2/src/mp4file_io.cpp:189-254 | each byte written is a base-256 digit of the number, the highest first |
| ByteFile.FourBytes | mp4v2/src/mp4file_io.cpp:213-218 | four bytes read as 2^24, 2^16, 2^8 and 1 times their values |
| ByteFile.PutBytes | mp4v2/src/mp4file_io.cpp:142-168 | place by place: the bytes written, those there were before and behind, and zeros in a gap |
| ByteFile.PutAppend | mp4v2/src/mp4file_io.cpp:142-168 | two writes in a row are one write |
| ByteFile.PutPatch | mp4v2/src/mp4file_io.cpp:43-58 | writing over part of what was written changes that part only |
| ByteFile.File.WriteBytes | mp4v2/src/mp4file_io.cpp:142-168 | bytes replace those at the position, or extend the file, and the position follows |
| ByteFile.File.ReadBytes | mp4v2/src/mp4file_io.cpp:72-99 | the bytes at the position, or an error if the file ends first, which leaves the position behind what was there |
| Atoms.Resolve | mp4v2/src/atom_standard.cpp:420-438 | a chunk offset table gets the type `co64` if and only if an offset is above 0xffffffff, and `stco` otherwise, with entries of that width |
| Atoms.BeginWrite | mp4v2/src/mp4atom.cpp:509-522 | a header with a size still to come, a type and an extended type |
| Atoms.WriteChildAtoms | mp4v2/src/mp4atom.cpp:576-584 | the children follow one after the other, if and only if all can be written |
| Atoms.FinishWrite | mp4v2/src/mp4atom.cpp:542-547 | the size is patched in and the position restored, if and only if it fits 32 bits |
| Atoms.Write | mp4v2/src/mp4atom.cpp:485-494 | the encoding of the whole tree stands at the position, every size that of its atom, if and only if no size leaves 32 bits; the four bytes behind the size of a table are `co64` exactly if an offset needs it, and a reader that goes by them gets the offsets back |
| Atoms.TableStored | mp4v2/src/atom_standard.cpp:420-438 | wherever a table is encoded its type says how wide its entries are, and reading by the type gives all offsets below 2^64 back |
| AtomParser.AtomAt | mp4v2/src/mp4atom.cpp:112-210 | an atom that is read straight ahead takes at least eight bytes and ends inside its parent |
| AtomParser.AtomIsPlaced | mp4v2/src/mp4atom.cpp:112-253 | for any bytes, atoms read straight ahead lie inside their parents, with children behind the header that abut |
| AtomParser.AtomsAreTiled | mp4v2/src/mp4atom.cpp:405-458 | for any bytes, siblings read straight ahead abut and leave fewer than eight bytes before the parent's end |
| AtomParser.EndIsAheadIff | mp4v2/src/mp4atom.cpp:149-180 | the end of an atom lies between its header and its parent's end exactly when the 64-bit sum does not wrap |
| AtomParser.StraightAhead | mp4v2/src/mp4atom.cpp:405-458 | if no header leads back, the program reads exactly what reading straight ahead gives, and ends after a step for every byte at most |
| AtomParser.TiledIffStraight | mp4v2/src/mp4atom.cpp:405-458 | what the program reads of any bytes is tiled by nested atoms exactly when no header it met leads back |
| AtomParser.ReadsForEver | mp4v2/src/mp4atom.cpp:149-180 | 24 bytes that the program is not done with after any number of atoms |
| AtomParser.ReadHeader | mp4v2/src/mp4atom.cpp:114-152 | 32-bit, 64-bit and open sizes and extended types as section 4.2 of ISO/IEC 14496-12 has them; an open size reaches to the end of the file, and a size smaller than its header is refused |
| AtomParser.HeaderObeys | mp4v2/src/mp4atom.cpp:114-152 | what is read of a header obeys a rule that goes by its bytes: its length by the size 1 and the type `uuid`, its size in four bytes or eight, the end of the file for size 0 |
| AtomParser.AtomObeys | mp4v2/src/mp4atom.cpp:149-253 | what is read of an atom obeys a rule for its place, its end, its property bytes and its children |
| AtomParser.ReadProperties | mp4v2/src/mp4atom.cpp:375-403 | the end of the properties, or an error if they overrun the atom or the file |
| AtomParser.ReadAtom | mp4v2/src/mp4atom.cpp:112-253 | the recursive reader finds exactly the tree the bytes contain, wherever the ends of atoms lead, and stops at its end; an atom ends where its size says or with its parent, and its data are one property, or its fields and children, by its kind |
| AtomParser.ReadChildAtoms | mp4v2/src/mp4atom.cpp:405-458 | reading children goes on from each child's end, ahead or back, and ends at the parent's end, with bytes left over passed by |
| AtomRoundTrip.AtomRead | mp4v2/src/mp4atom.cpp:112-253 | an encoded tree is found wherever it stands in a file, with every atom's place |
| AtomRoundTrip.WriteThenRead | mp4v2/src/mp4atom.cpp:485-494 | reading back what `Write` left gives the same tree |
| AtomRoundTrip.TableRestored | mp4v2/src/atom_standard.cpp:420-438 | a chunk offset table gives its offsets back in either form |
| AtomRoundTrip.TypedTableRestored | mp4v2/src/atom_standard.cpp:420-438 | a table anywhere in a tree is read as an atom whose type tells the width of the entries, and gives all offsets below 2^64 back by it |
| AtomRoundTrip.SmallMovie | mp4v2/src/mp4atom.cpp:485-494 | a movie with a table of two offsets, byte for byte |
| OptimalLayout.GrowthBound | mp4v2/src/atom_root.cpp:108-124 | relocating chunks enlarges a tree by at most four bytes for every entry that took 32 bits |
| OptimalLayout.IndexFits | mp4v2/src/atom_root.cpp:141-151 | the relocated index is never larger than the old one and the room for its narrow entries |
| OptimalLayout.RootAtom.WriteAtomType | mp4v2/src/atom_root.cpp:169-181 | the first or all atoms of a type are written, if and only if they can be |
| OptimalLayout.PickedIsFirst | mp4v2/src/atom_root.cpp:169-181 | the one atom written is the first of its type |
| OptimalLayout.MatchingIs | mp4v2/src/atom_root.cpp:169-181 | all atoms written are those of the type |
| OptimalLayout.RootAtom.CalcRoom | mp4v2/src/atom_root.cpp:113-124 | room of 1024 bytes and four for every narrow entry |
| OptimalLayout.RootAtom.WriteIndexFirst | mp4v2/src/atom_root.cpp:104-106 | the file begins with the first atoms, the index, whose start and size are kept, and user data, if and only if they can be written |
| OptimalLayout.RootAtom.Reserve | mp4v2/src/atom_root.cpp:125-128 | a free atom of the room and its header, whose contents are passed over |
| OptimalLayout.RootAtom.BeginMdat | mp4v2/src/mp4atom.cpp:509-518 | a free atom of eight bytes before an open header leaves sixteen bytes for either size |
| OptimalLayout.RootAtom.BeginOptimalWrite | mp4v2/src/atom_root.cpp:102-131 | first atoms, index, user data, reserved room and an open media header, if and only if they can be written and there is media data |
| OptimalLayout.RootAtom.RewriteChunk | src/mp4filex.cpp:80-83 | a chunk is appended to the media data, and any relocation of chunk offsets keeps the layout |
| OptimalLayout.RootAtom.FinishMdat | mp4v2/src/mp4atom.cpp:524-547 | a 32-bit or a 64-bit header is completed in the same sixteen bytes, without moving the data |
| OptimalLayout.RootAtom.RewriteIndex | mp4v2/src/atom_root.cpp:141-155 | rewriting the index, and user data behind it if the index has changed its size, changes only what stands before the media data |
| OptimalLayout.FillGap | mp4v2/src/atom_root.cpp:149-155 | the assertion about the gap holds if and only if it is empty or holds a header, which then fills it |
| OptimalLayout.RootAtom.FinishOptimalWrite | mp4v2/src/atom_root.cpp:133-156 | the assertion never fails for any switch of tables: index rewritten in place, user data behind it if its size has changed, one free atom, media data unmoved at the end behind a header that gives its size in four or eight bytes, file size kept |
| LayoutReads.FinishedReads | mp4v2/src/atom_root.cpp:102-156 | the finished file reads as first atoms, relocated index, the user data moved behind it, one free atom and media data, tiling it to the end, in both header forms |
| LayoutReads.UserDataKeptIff | mp4v2/src/atom_root.cpp:141-155 | the finished file reads as holding the user data exactly when the index has changed its size, or there is none |
| LayoutReads.LoseUserData | mp4v2/src/atom_root.cpp:102-156 | writing and finishing a movie with user data, none of whose chunks moves, gives a file that reads without it |
| BitFile.ValueOfBits | mp4v2/src/mp4file_io.cpp:478-514 | n written bits read as the value modulo 2^n |
| BitFile.BitAt | mp4v2/src/mp4file_io.cpp:502-514 | the bits of a value are written highest first |
| BitFile.ByteBits | mp4v2/src/mp4file_io.cpp:486-490 | the first bit of a byte is worth 128, the last 1 |
| BitFile.FieldsReadBack | mp4v2/src/mp4file_io.cpp:478-514 | any list of fields reads back, each modulo its width, whatever follows |
| BitFile.FileFieldsReadBack | mp4v2/src/mp4file_io.cpp:478-521 | the same for fields appended to a file and padded |
| BitFile.BitIO.WriteBits | mp4v2/src/mp4file_io.cpp:502-514 | file and buffer together gain exactly the value's last bits, most significant first |
| BitFile.BitIO.PadWriteBits | mp4v2/src/mp4file_io.cpp:516-521 | fewer than eight bits of the kind asked for fill the last byte up, and nothing waits in the buffer |
| BitFile.BitIO.FlushWriteBits | mp4v2/src/mp4file_io.cpp:523-530 | a full buffer becomes a byte of the file, an empty one nothing, and no bit is lost; a partial one is refused, as bytes cannot be written while one is begun |
| BitFile.BitIO.GetBit | mp4v2/src/mp4file_io.cpp:486-490 | the next bit of buffer and file, if there is one, and the rest stay as they were |
| BitFile.BitIO.ReadBits | mp4v2/src/mp4file_io.cpp:478-494 | the value of the next bits of buffer and file, if and only if there are so many |
| BitFile.BitIO.FlushReadBits | mp4v2/src/mp4file_io.cpp:496-500 | exactly the bits left in the buffer are dropped |
| MpegLengths.LengthRoundTrip | mp4v2/src/mp4file_io.cpp:532-580 | a length in any number of bytes that can hold it is read back with that number of bytes |
| MpegLengths.LengthByteAt | mp4v2/src/mp4file_io.cpp:571-580 | each byte holds seven bits of the length, the highest first, and all but the last announce another |
| MpegLengths.ThreeHundred | mp4v2/src/mp4file_io.cpp:547-580 | 300 is 82 2C in hexadecimal, or 80 80 82 2C in four bytes |
| MpegLengths.CompactIsShortest | mp4v2/src/mp4file_io.cpp:557-569 | the compact form holds every length, and no bytes that read as that length are fewer |
| MpegLengths.ReadMpegLength | mp4v2/src/mp4file_io.cpp:532-545 | the length of at most four bytes ahead, or an error if the file ends first |
| MpegLengths.WriteMpegLength | mp4v2/src/mp4file_io.cpp:547-580 | the length in compact or four-byte form, refused if and only if it leaves 28 bits |
| CountedStrings.ExpandedRoundTrip | mp4v2/src/mp4file_io.cpp:376-476 | an expanded string reads back if and only if it has whole characters, at most 6374 of them |
| CountedStrings.PlainRoundTrip | mp4v2/src/mp4file_io.cpp:376-476 | a string with a one-byte count can be written up to 255 characters, and then reads back exactly if they are whole |
| CountedStrings.FixedRoundTrip | mp4v2/src/mp4file_io.cpp:376-476 | a fixed field takes exactly its length, for any character size and either count, and gives back the whole characters that fit: the whole string exactly when it is shorter than the field and has whole characters |
| CountedStrings.CountBytesAre | mp4v2/src/mp4file_io.cpp:446-455 | an expanded count is bytes of 255 and the rest |
| CountedStrings.TwoInFive | mp4v2/src/mp4file_io.cpp:428-476 | two characters in a field of five bytes |
| CountedStrings.WriteCountedString | mp4v2/src/mp4file_io.cpp:428-476 | count, bytes kept and padding, refused if and only if a one-byte count is too small |
| CountedStrings.WriteCount | mp4v2/src/mp4file_io.cpp:446-461 | a count in bytes of 255 and a rest, or in one byte |
| CountedStrings.ReadCountedString | mp4v2/src/mp4file_io.cpp:376-426 | the string the bytes ahead hold, or an error if they end first or the count takes more than 25 bytes |
| CountedStrings.ReadCount | mp4v2/src/mp4file_io.cpp:379-392 | the count that at most 25 bytes ahead add up to |
| Descriptors.Write | mp4v2/src/mp4descriptor.cpp:146-176 | the encoding with patched lengths of a whole tree, if and only if no length, cut to 32 bits, leaves 28 |
| Descriptors.WriteProperties | mp4v2/src/mp4descriptor.cpp:164-166 | the properties follow one after the other, nested descriptors with lengths of their own |
| Descriptors.PatchLength | mp4v2/src/mp4descriptor.cpp:171-175 | going back replaces the placeholder by the length of all that was written since, cut to 32 bits, and nothing else |
| Descriptors.WrittenIsExact | mp4v2/src/mp4descriptor.cpp:146-176 | the header of every descriptor, however deep, states its tag and the exact size of the body that follows, exactly when no body is longer than 28 bits |
| Descriptors.SmallDescriptor | mp4v2/src/mp4descriptor.cpp:146-176 | a descriptor of two bytes, byte for byte |
| Descriptors.LongBodyIsCut | mp4v2/src/mp4descriptor.cpp:171-175 | a body of 2^32 + 5 bytes is written with the length 5 |
| Descriptors.ReadHeader | mp4v2/src/mp4descriptor.cpp:86-103 | tag, length and start of the body at the position; an error if the file ends first or the tag is not the expected one |
| Utf8.Utf8LenFromUcs4 | mp4v2/libplatform/platform_win32.cpp:1011-1033 | the table of ranges gives the number of octets of a code point, 0 if it has no encoding |
| Utf8.GatheredFits | mp4v2/libplatform/platform_win32.cpp:891-914 | a gathered code point has an encoding of at most the octets it came from, so neither assertion can fail |
| Utf8.DecodeAdvances | mp4v2/libplatform/platform_win32.cpp:704-996 | decoding moves forward, never past the NUL, and a surrogate pair takes at least four bytes |
| Utf8.Utf8DecodeChar | mp4v2/libplatform/platform_win32.cpp:704-996 | the units of one character and where the next starts, with malformed, overlong and disallowed ones replaced: an octet that begins nothing alone, a broken character up to the byte that breaks it; nothing but the octets of a code point is taken for one |
| Utf8.GatherOctets | mp4v2/libplatform/platform_win32.cpp:842-868 | continuation octets are gathered up to the first that is none |
| Utf8.ToUtf16 | mp4v2/libplatform/platform_win32.cpp:891-995 | overlong and disallowed code points become U+FFFD; others up to U+FFFF themselves, and those above a high surrogate and a low one that share their bits |
| Utf8.Utf16 | mp4v2/libplatform/platform_win32.cpp:955-985 | a code point up to U+FFFF is one unit; one above is a unit in D800-DBFF and one in DC00-DFFF with the code point's bits |
| Utf8.DecodeBroken | mp4v2/libplatform/platform_win32.cpp:757-868 | what ill-formed octets become and where decoding goes on |
| Utf8.DecodeWhole | mp4v2/libplatform/platform_win32.cpp:829-995 | whatever is not replaced is the encoding of a code point |
| Utf8.UnitsFit | mp4v2/libplatform/platform_win32.cpp:225-234 | a string never needs more units than it has bytes |
| Utf8.ConvertToUTF16Buf | mp4v2/libplatform/platform_win32.cpp:297-416 | the buffer holds as many units as fit, then zeros; success exactly when all fit |
| Utf8.ConvertToUTF16 | mp4v2/libplatform/platform_win32.cpp:212-270 | a buffer of length plus one always suffices and is terminated; an independent reader of UTF-16 gets the code points of a well-formed name back from it, with U+FFFD for every surrogate, U+FFFE and U+FFFF |
| Utf8.EncodedDecodes | mp4v2/libplatform/platform_win32.cpp:829-995 | the octets of any code point up to U+10FFFF decode to its UTF-16 form, or to the replacement character if it is not allowed |
| Utf8.WellFormedConverts | mp4v2/libplatform/platform_win32.cpp:353-402 | an encoded string becomes its UTF-16 form with replacements, and that is the form of the same code points exactly when none is a surrogate, U+FFFE or U+FFFF |
| Utf8.ShownReads | mp4v2/libplatform/platform_win32.cpp:353-402 | read back by a decoder of UTF-16, the units give the code points, with U+FFFD for those that are replaced |
| Utf8.EncodedReads | mp4v2/libplatform/platform_win32.cpp:212-270 | the same for the units of any encoded name |
| Utf8.GrinningFace | mp4v2/libplatform/platform_win32.cpp:977-985 | F0 9F 98 80 becomes D83D DE00 |
| Smpte.NormalIsUnique | mp4v2/libutil/Timecode.cpp:442-467 | a duration has one form with minutes and seconds below 60 and frames below the rate |
| Smpte.NormalForm | mp4v2/libutil/Timecode.cpp:502-528 | that form exists for every duration |
| Smpte.FormOfNormal | mp4v2/libutil/Timecode.cpp:442-528 | taking the normal form undoes adding up the fields |
| Smpte.PrintedReads | mp4v2/libutil/Timecode.cpp:318-408 | a printed timecode can be read if and only if no field takes more than sixteen digits, and then gives the same fields |
| Smpte.PrintedInOrder | mp4v2/libutil/Timecode.cpp:468-482 | a timecode prints as 01:23:45:06 |
| Smpte.TwoSections | mp4v2/libutil/Timecode.cpp:276-330 | two sections are seconds and frames |
| Smpte.HalfSecond | mp4v2/libutil/Timecode.cpp:355-438 | 1.5 is a second and twelve of twenty-four frames |
| SmpteTimecode.SumWithin | mp4v2/libutil/Timecode.cpp:131-134 | the overflow check turns wrapped sums into the largest value and leaves others alone |
| SmpteTimecode.DifferenceWithin | mp4v2/libutil/Timecode.cpp:145-148 | the underflow check turns wrapped differences into 0 and leaves others alone |
| SmpteTimecode.ConvertedIs | mp4v2/libutil/Timecode.cpp:99-106 | another timecode's duration times the ratio of the scales, cut down |
| SmpteTimecode.FilmAndVideo | mp4v2/libutil/Timecode.cpp:99-106 | 48 frames at 24 are 50 at 25, and 51 at 25 are 48 at 24 |
| SmpteTimecode.TextOfHalf | mp4v2/libutil/Timecode.cpp:468-489 | a second and a half prints as 00:00:01.500 |
| SmpteTimecode.CountSections | mp4v2/libutil/Timecode.cpp:243-274 | separators are counted, and a second semicolon or period noticed |
| SmpteTimecode.Timecode.ScanSections | mp4v2/libutil/Timecode.cpp:316-408 | the scan either finds the text unreadable or has all complete sections in their fields and the last one in its buffer |
| SmpteTimecode.Timecode.constructor | mp4v2/libutil/Timecode.cpp:76-95 | fields in normal form, duration and text agree on the frames given |
| SmpteTimecode.Timecode.Recompute | mp4v2/libutil/Timecode.cpp:442-490 | fields reach normal form without changing their sum, and duration and text follow |
| SmpteTimecode.Timecode.CarryFields | mp4v2/libutil/Timecode.cpp:449-465 | carrying keeps the total duration |
| SmpteTimecode.Timecode.SetDuration | mp4v2/libutil/Timecode.cpp:502-528 | duration, fields and text agree on the frames given, at the scale given |
| SmpteTimecode.Timecode.SetFields | mp4v2/libutil/Timecode.cpp:513-525 | the fields a duration is split into add up to it |
| SmpteTimecode.Timecode.Parse | mp4v2/libutil/Timecode.cpp:224-438 | a text is refused if and only if it is not readable, and otherwise fields, duration and text agree on what it states |
| SmpteTimecode.ReadBack | mp4v2/libutil/Timecode.cpp:224-489 | a timecode read from the text of another has its fields and duration, exactly when no field takes more than sixteen digits |
| SmpteTimecode.Timecode.PlusAssign | mp4v2/libutil/Timecode.cpp:128-138 | durations add, the other one's times the ratio of the scales and cut down, up to the largest 64-bit one, and the fields follow |
| SmpteTimecode.Timecode.MinusAssign | mp4v2/libutil/Timecode.cpp:142-152 | durations subtract, the other one's times the ratio of the scales and cut down, down to 0, and the fields follow |

## Left out

- IEEE rounding: every `double` is an exact real.
- Wrapping of 64-bit sums of times.
- TimeBend.Round: rounds down after adding one half; the program's cast rounds towards zero, which differs for times below -1/2 only, and its times are unsigned.
- TrackEditing.TrackEditor.constructor: a composition time below zero stays negative, where the program would wrap it to a huge unsigned one.
- TrackEditing.TrackEditor.SetFPS: time scales of 2^31 and more are taken as they are, where the program passes them through a signed integer.
- FrameRates.CalcTimeScale: signed overflow, and the cast of a refined scale that is too large, are modelled as wrapping at 32 bits.
- FrameRates.NormalizeFPSRange: frame counts that add up to more than 2^32 do not wrap, and the filled and reduced ranges are returned, where the program writes them into the caller's array.
- FrameTimes.PowerBelow: ends with 0 for a limit above 4135583744, for which the program's search would never end; a scale below 2^31 has no such limit.
- SampleOrder.SortByCts: an insertion sort stands for `std::sort`, which promises the same about the result.
- TrackEditing.TrackEditor.DoEditTimeCodes: the movie header's duration and modification times, which it also writes, are not modelled.
- TimecodeAverages.Options.RescaleTimecode: requires, for an automatic scale, a movie that ends after 0; the search would not end for one that ends before, and divides by 0 for one that ends there.
- fixAudioTimeCodes and convertToExactRanges, which are heuristics without a crisp promise, and printTimeCodes.
- getopt and getopt_long_only, POSIXLY_CORRECT, leading `+` and `-`, `optreset`, error messages, and option strings with NUL characters.
- The early return of -1 for a cluster that ends in a dash (src/getopt.c:526), which cannot be reached with a table of long options.
- ArgScanner.Scanner.constructor: requires that `optind` lies within the vector; a scan that begins behind it is over at once.
- ArgScanner.Scanner.GetoptLong: the contract covers the calls up to the first that returns -1; a scan that is resumed after it is a new scan.
- Atoms.Write: atoms are values, so the start, end and size that the program keeps in its objects appear as results of reading only.
- AtomParser.ReadAtom: takes a bound on the atoms it reads one after the other, and fails when it is exceeded, since the program need not end; AtomParser.StraightAhead says when a bound is never met.
- AtomParser.ReadChildAtoms: takes the same bound.
- Which types have which fields and children is a parameter of the reader, and fields are byte strings that tell their own length; the constructors of single atom types are not modelled.
- AtomRoundTrip.TableRestored: the readers of chunk offset tables, here and in Atoms.TableStored, are the model's own; mp4property.cpp is not part of this model.
- OptimalLayout.RootAtom.BeginOptimalWrite: requires one chunk offset table a track, and an index with user data and its room below four gigabytes.
- MP4RootAtom::BeginWrite and FinishWrite, which write a movie with its index last.
- Memory buffers, peeking, fixed-point and floating-point numbers, and NUL-terminated strings of mp4file_io.cpp.
- CountedStrings.WriteCountedString: strings are bytes with a length, without a NUL.
- Descriptors.Write: properties are whole bytes, so the padding before the length is patched has nothing to do, and Mutate changes nothing.
- Reading the properties of descriptors, which depends on mp4property.cpp; that file is not part of this model.
- ChunkMerge.FileCopy.constructor: chunk times on the movie's clock are given, where the program converts them with code that is not part of this model; a chunk's bytes are not modelled here but in OptimalLayout.
- Utf8.ConvertToUTF16: file names with embedded NUL characters, prefixes for long paths, and Windows calls.
- SmpteTimecode.Timecode.Recompute: fields are unbounded; only the duration is taken modulo 2^64.
- Comparison operators, setters of single fields, and texts with a decimal fraction of a second, which do not read back exactly.
