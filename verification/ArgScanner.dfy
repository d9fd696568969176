/** The resumable, permuting scanner behind `getopt_long` (src/getopt.c). */
module ArgScanner {
  import opened Wrappers
  import opened OptionGrammar
  import opened Rotation

  /** The vector while it is being scanned: the options met so far in order,
      with the non-options skipped so far in one block before the last
      `|opts| - k` of their elements, then what is still to be scanned. */
  ghost function Arranged(args: seq<string>, base: nat, optind: nat, opts: seq<string>, skipped: seq<string>, k: nat): seq<string>
    requires base <= optind <= |args| && k <= |opts|
  {
    args[..base] + opts[..k] + skipped + opts[k..] + args[optind..]
  }

  /** The skipped block is `[ns, ne)`, or `[ns, optind)` while `ne` is -1. */
  ghost predicate Laid(now: seq<string>, args: seq<string>, base: nat, optind: nat,
                       opts: seq<string>, skipped: seq<string>, ns: int, ne: int)
  {
    && base <= optind <= |args|
    && |opts| + |skipped| == optind - base
    && (if ns == -1 then ne == -1 && skipped == []
        else base <= ns <= base + |opts| && skipped != []
             && (if ne == -1 then ns == base + |opts| else ne == ns + |skipped|))
    && now == Arranged(args, base, optind, opts, skipped, if ns == -1 then |opts| else ns - base)
  }

  /** The elements scanned so far are laid out by their marks. */
  ghost predicate Layout(now: seq<string>, args: seq<string>, base: nat, optind: nat, done: seq<bool>, ns: int, ne: int)
  {
    && base <= optind <= |args|
    && |done| == optind - base
    && Laid(now, args, base, optind, Select(args[base..optind], done, true), Select(args[base..optind], done, false), ns, ne)
  }

  /** A stable partition: what is marked comes first, and `optind` is the
      first element that is not. */
  ghost predicate Partitioned(now: seq<string>, args: seq<string>, base: nat, optind: nat, marks: seq<bool>)
    requires base <= |args| && |marks| == |args| - base
  {
    && now == args[..base] + Select(args[base..], marks, true) + Select(args[base..], marks, false)
    && optind == base + |Select(args[base..], marks, true)|
  }

  /** Nothing is lost or made up: the vector is only rearranged. */
  lemma PartitionKeepsElements(now: seq<string>, args: seq<string>, base: nat, optind: nat, marks: seq<bool>)
    requires base <= |args| && |marks| == |args| - base && Partitioned(now, args, base, optind, marks)
    ensures multiset(now) == multiset(args) && |now| == |args| && base <= optind <= |args|
  {
    var front, rest := args[..base], args[base..];
    SelectComplement(rest, marks);
    ThreeParts(front, Select(rest, marks, true), Select(rest, marks, false));
    assert args == front + rest;
  }

  lemma ThreeParts<T>(a: seq<T>, b: seq<T>, c: seq<T>)
    ensures multiset(a + b + c) == multiset(a) + (multiset(b) + multiset(c))
  {}

  lemma SelectExtend(args: seq<string>, base: nat, optind: nat, done: seq<bool>, k: nat, b: bool, mark: bool)
    requires base <= optind <= optind + k <= |args| && |done| == optind - base
    ensures Select(args[base..optind + k], done + Repeat(mark, k), b)
         == Select(args[base..optind], done, b) + (if mark == b then args[optind..optind + k] else [])
  {
    assert args[base..optind + k] == args[base..optind] + args[optind..optind + k];
    SelectAppend(args[base..optind], done, args[optind..optind + k], Repeat(mark, k), b);
    SelectRepeat(args[optind..optind + k], mark, b);
  }

  /** Scanning more options leaves the skipped block where it is. */
  lemma ArrangedGrow(args: seq<string>, base: nat, optind: nat, n: nat, opts: seq<string>, skipped: seq<string>, k: nat)
    requires base <= optind <= optind + n <= |args| && k <= |opts|
    ensures Arranged(args, base, optind + n, opts + args[optind..optind + n], skipped, k)
         == Arranged(args, base, optind, opts, skipped, k)
  {
    var more := args[optind..optind + n];
    assert args[optind..] == more + args[optind + n..];
    assert (opts + more)[..k] == opts[..k];
    assert (opts + more)[k..] == opts[k..] + more;
    var front := args[..base] + opts[..k] + skipped;
    assert front + (opts[k..] + more) + args[optind + n..] == front + opts[k..] + (more + args[optind + n..]);
  }

  /** Without skipped non-options the block may be placed anywhere. */
  lemma ArrangedFlat(args: seq<string>, base: nat, optind: nat, opts: seq<string>, k: nat)
    requires base <= optind <= |args| && k <= |opts|
    ensures Arranged(args, base, optind, opts, [], k) == args[..base] + opts + args[optind..]
  {
    assert opts[..k] + opts[k..] == opts;
    assert args[..base] + opts[..k] + [] == args[..base] + opts[..k];
    assert args[..base] + opts[..k] + opts[k..] == args[..base] + (opts[..k] + opts[k..]);
  }

  lemma LaidOption(now: seq<string>, args: seq<string>, base: nat, optind: nat,
                   opts: seq<string>, skipped: seq<string>, ns: int, ne: int, n: nat)
    requires Laid(now, args, base, optind, opts, skipped, ns, ne) && optind + n <= |args|
    requires ns == -1 || ne != -1
    ensures Laid(now, args, base, optind + n, opts + args[optind..optind + n], skipped, ns, ne)
  {
    var more := args[optind..optind + n];
    var k := if ns == -1 then |opts| else ns - base;
    ArrangedGrow(args, base, optind, n, opts, skipped, k);
    if ns == -1 {
      ArrangedFlat(args, base, optind + n, opts + more, k);
      ArrangedFlat(args, base, optind + n, opts + more, |opts + more|);
    }
  }

  lemma LaidNonOption(now: seq<string>, args: seq<string>, base: nat, optind: nat,
                      opts: seq<string>, skipped: seq<string>, ns: int)
    requires Laid(now, args, base, optind, opts, skipped, ns, -1) && optind < |args|
    ensures Laid(now, args, base, optind + 1, opts, skipped + args[optind..optind + 1], if ns == -1 then optind else ns, -1)
  {
    var more := args[optind..optind + 1];
    assert opts[|opts|..] == [];
    var front := args[..base] + opts[..|opts|];
    assert front + (skipped + more) + [] + args[optind + 1..] == front + skipped + [] + (more + args[optind + 1..]);
    assert args[optind..] == more + args[optind + 1..];
  }

  lemma RotateConcat<T>(a: seq<T>, b: seq<T>, c: seq<T>, d: seq<T>)
    ensures Rotated(a + b + c + d, |a|, |a| + |b|, |a| + |b| + |c|) == a + c + b + d
  {
    var s := a + b + c + d;
    assert s[..|a|] == a && s[|a|..|a| + |b|] == b;
    assert s[|a| + |b|..|a| + |b| + |c|] == c && s[|a| + |b| + |c|..] == d;
  }

  lemma LaidPermute(now: seq<string>, args: seq<string>, base: nat, optind: nat,
                    opts: seq<string>, skipped: seq<string>, ns: int, ne: int)
    requires Laid(now, args, base, optind, opts, skipped, ns, ne) && ne != -1 && ns != -1
    ensures base <= ns < ne <= optind <= |now|
    ensures Laid(Rotated(now, ns, ne, optind), args, base, optind, opts, skipped, optind - (ne - ns), -1)
  {
    var k := ns - base;
    var a, d := args[..base] + opts[..k], args[optind..];
    RotateConcat(a, skipped, opts[k..], d);
    assert a + opts[k..] == args[..base] + opts by { assert opts[..k] + opts[k..] == opts; }
    assert opts[..|opts|] == opts && opts[|opts|..] == [];
    assert (a + opts[k..]) + skipped + [] + d == (a + opts[k..]) + skipped + d;
  }

  lemma LaidFinal(now: seq<string>, args: seq<string>, base: nat, optind: nat,
                  opts: seq<string>, skipped: seq<string>, ns: int)
    requires Laid(now, args, base, optind, opts, skipped, ns, -1)
    ensures now == args[..base] + opts + (skipped + args[optind..])
    ensures (if ns == -1 then optind else ns) == base + |opts|
  {
    assert opts[..|opts|] == opts && opts[|opts|..] == [];
    assert args[..base] + opts + skipped + [] + args[optind..] == args[..base] + opts + (skipped + args[optind..]);
  }

  /** Elements belonging to options are scanned. */
  lemma LayoutOption(now: seq<string>, args: seq<string>, base: nat, optind: nat, done: seq<bool>, ns: int, ne: int, next: nat)
    requires Layout(now, args, base, optind, done, ns, ne) && optind <= next <= |args|
    requires ns == -1 || ne != -1
    ensures Layout(now, args, base, next, done + Repeat(true, next - optind), ns, ne)
  {
    var n := next - optind;
    SelectExtend(args, base, optind, done, n, true, true);
    SelectExtend(args, base, optind, done, n, false, true);
    var opts, skipped := Select(args[base..optind], done, true), Select(args[base..optind], done, false);
    LaidOption(now, args, base, optind, opts, skipped, ns, ne, n);
    assert skipped + [] == skipped;
  }

  /** A non-option is skipped, starting or continuing the skipped block. */
  lemma LayoutNonOption(now: seq<string>, args: seq<string>, base: nat, optind: nat, done: seq<bool>, ns: int)
    requires Layout(now, args, base, optind, done, ns, -1) && optind < |args|
    ensures Layout(now, args, base, optind + 1, done + Repeat(false, 1), if ns == -1 then optind else ns, -1)
  {
    SelectExtend(args, base, optind, done, 1, true, false);
    SelectExtend(args, base, optind, done, 1, false, false);
    var opts, skipped := Select(args[base..optind], done, true), Select(args[base..optind], done, false);
    LaidNonOption(now, args, base, optind, opts, skipped, ns);
    assert opts + [] == opts;
  }

  /** Exchanging the skipped block with the options after it. */
  lemma LayoutPermute(now: seq<string>, args: seq<string>, base: nat, optind: nat, done: seq<bool>, ns: int, ne: int)
    requires Layout(now, args, base, optind, done, ns, ne) && ne != -1 && ns != -1
    ensures base <= ns < ne <= optind <= |now|
    ensures Layout(Rotated(now, ns, ne, optind), args, base, optind, done, optind - (ne - ns), -1)
  {
    LaidPermute(now, args, base, optind, Select(args[base..optind], done, true), Select(args[base..optind], done, false), ns, ne);
  }

  /** The scanned part is partitioned and everything after it is left over. */
  lemma LayoutFinal(now: seq<string>, args: seq<string>, base: nat, optind: nat, done: seq<bool>, ns: int)
    requires Layout(now, args, base, optind, done, ns, -1)
    ensures Partitioned(now, args, base, if ns == -1 then optind else ns, done + Repeat(false, |args| - optind))
  {
    SelectExtend(args, base, optind, done, |args| - optind, true, false);
    SelectExtend(args, base, optind, done, |args| - optind, false, false);
    assert args[base..|args|] == args[base..] && args[optind..|args|] == args[optind..];
    var opts, skipped := Select(args[base..optind], done, true), Select(args[base..optind], done, false);
    LaidFinal(now, args, base, optind, opts, skipped, ns);
    assert opts + [] == opts;
  }

  /** The marks set so far continue to those of the whole vector. */
  ghost predicate Tracks(g: Grammar, args: seq<string>, base: nat, done: seq<bool>, optind: nat, place: string)
    requires g.Permuting() && base <= |args| && optind <= |args| && (place != "" ==> optind < |args|)
  {
    done + Marks(g, args, optind, place) == Marks(g, args, base, "")
  }

  lemma TracksNonOption(g: Grammar, args: seq<string>, base: nat, done: seq<bool>, i: nat)
    requires g.Permuting() && base <= |args| && i < |args| && IsNonOption(args[i])
    requires Tracks(g, args, base, done, i, "")
    ensures Tracks(g, args, base, done + Repeat(false, 1), i + 1, "")
    ensures Outcomes(g, args, i + 1, "") == Outcomes(g, args, i, "")
  {
    var rest := Marks(g, args, i + 1, "");
    assert done + Repeat(false, 1) + rest == done + ([false] + rest);
  }

  lemma EnterElement(g: Grammar, args: seq<string>, base: nat, done: seq<bool>, i: nat)
    requires g.Permuting() && base <= |args| && i < |args| && !IsNonOption(args[i]) && args[i] != "--"
    requires Tracks(g, args, base, done, i, "")
    ensures Tracks(g, args, base, done, i, args[i][1..])
    ensures Outcomes(g, args, i, args[i][1..]) == Outcomes(g, args, i, "")
  {}

  lemma TracksTerminator(g: Grammar, args: seq<string>, base: nat, done: seq<bool>, i: nat)
    requires g.Permuting() && base <= |args| && i < |args| && args[i] == "--"
    requires Tracks(g, args, base, done, i, "")
    ensures done + Repeat(true, 1) + Repeat(false, |args| - (i + 1)) == Marks(g, args, base, "")
  {
    var rest := Repeat(false, |args| - i - 1);
    assert done + Repeat(true, 1) + rest == done + ([true] + rest);
  }

  lemma TracksOption(g: Grammar, args: seq<string>, base: nat, done: seq<bool>, i: nat, place: string, o: Outcome)
    requires g.Permuting() && base <= |args| && i < |args| && place != "" && o == OptionOutcome(g, args, i, place)
    requires Tracks(g, args, base, done, i, place)
    ensures Tracks(g, args, base, done + Repeat(true, o.next - i), o.next, o.rest)
  {
    MarksJoin(done, Repeat(true, o.next - i), Marks(g, args, o.next, o.rest));
  }

  /** The scan stands at element `optind` with `place` left of it. */
  ghost predicate ScanningAt(g: Grammar, now: seq<string>, args: seq<string>, base: nat, optind: nat, done: seq<bool>,
                             ns: int, ne: int, place: string)
  {
    && g.Permuting()
    && Layout(now, args, base, optind, done, ns, ne)
    && (place != "" ==> optind < |args|)
    && Tracks(g, args, base, done, optind, place)
  }

  lemma {:induction false} ScanOption(g: Grammar, now: seq<string>, args: seq<string>, base: nat, i: nat, done: seq<bool>, ns: int, ne: int,
                                      place: string, o: Outcome)
    requires g.Permuting() && i < |args| && place != "" && o == OptionOutcome(g, args, i, place)
    requires ScanningAt(g, now, args, base, i, done, ns, ne, place)
    requires ns == -1 || ne != -1
    ensures ScanningAt(g, now, args, base, o.next, done + Repeat(true, o.next - i), ns, ne, o.rest)
    ensures Outcomes(g, args, i, place) == [o] + Outcomes(g, args, o.next, o.rest)
  {
    TracksOption(g, args, base, done, i, place, o);
    LayoutOption(now, args, base, i, done, ns, ne, o.next);
    ScanningIs(g, now, args, base, o.next, done + Repeat(true, o.next - i), ns, ne, o.rest);
    FirstOutcome(g, args, i, place, o);
  }

  lemma ScanningIs(g: Grammar, now: seq<string>, args: seq<string>, base: nat, i: nat, done: seq<bool>, ns: int, ne: int, place: string)
    requires g.Permuting() && Layout(now, args, base, i, done, ns, ne) && base <= |args| && i <= |args|
    requires (place != "" ==> i < |args|) && Tracks(g, args, base, done, i, place)
    ensures ScanningAt(g, now, args, base, i, done, ns, ne, place)
  {}

  lemma FirstOutcome(g: Grammar, args: seq<string>, i: nat, place: string, o: Outcome)
    requires g.Permuting() && i < |args| && place != "" && o == OptionOutcome(g, args, i, place)
    ensures Outcomes(g, args, i, place) == [o] + Outcomes(g, args, o.next, o.rest)
  {}

  /** What is still to be scanned has not been moved. */
  lemma Untouched(g: Grammar, now: seq<string>, args: seq<string>, base: nat, optind: nat, done: seq<bool>,
                                     ns: int, ne: int, place: string)
    requires ScanningAt(g, now, args, base, optind, done, ns, ne, place)
    ensures |now| == |args| && optind <= |args| && (optind < |args| ==> now[optind] == args[optind])
  {
    assert now[optind..] == args[optind..];
    if optind < |args| {
      assert now[optind] == now[optind..][0];
    }
  }

  lemma ScanNonOption(g: Grammar, now: seq<string>, args: seq<string>, base: nat, i: nat, done: seq<bool>, ns: int)
    requires ScanningAt(g, now, args, base, i, done, ns, -1, "") && i < |args| && IsNonOption(args[i])
    ensures ScanningAt(g, now, args, base, i + 1, done + Repeat(false, 1), if ns == -1 then i else ns, -1, "")
    ensures Outcomes(g, args, i + 1, "") == Outcomes(g, args, i, "")
  {
    LayoutNonOption(now, args, base, i, done, ns);
    TracksNonOption(g, args, base, done, i);
  }

  lemma ScanDashes(g: Grammar, now: seq<string>, args: seq<string>, base: nat, i: nat, done: seq<bool>, ns: int, ne: int)
    requires ScanningAt(g, now, args, base, i, done, ns, ne, "") && i < |args| && args[i] == "--"
    requires ns == -1 || ne != -1
    ensures Layout(now, args, base, i + 1, done + Repeat(true, 1), ns, ne)
    ensures done + Repeat(true, 1) + Repeat(false, |args| - (i + 1)) == Marks(g, args, base, "")
  {
    LayoutOption(now, args, base, i, done, ns, ne, i + 1);
    TracksTerminator(g, args, base, done, i);
  }

  lemma MarksJoin(a: seq<bool>, b: seq<bool>, c: seq<bool>)
    ensures a + b + c == a + (b + c)
  {}

  lemma MarksOn(before: seq<bool>, b: bool, n: nat)
    ensures before + Repeat(b, n) + Repeat(b, 1) == before + Repeat(b, n + 1)
    ensures before + Repeat(b, 0) == before
  {}

  class Scanner {
    const g: Grammar
    const argv: array<string>
    var optind: nat
    var optarg: Option<string>
    var optopt: int
    var longIndex: nat
    var flagStore: map<int, int>
    var place: string
    var nonoptStart: int
    var nonoptEnd: int

    /** The vector as it was given, where the scan began, and the marks of
        the elements scanned since. */
    ghost const args: seq<string>
    ghost const base: nat
    ghost var done: seq<bool>

    /** A new scan from element `optind`, or from 1 if that is 0. */
    constructor (g: Grammar, argv: array<string>, optind: nat)
      requires g.Permuting() && (if optind == 0 then 1 else optind) <= argv.Length
      ensures Valid() && this.g == g && this.argv == argv
      ensures args == argv[..] && base == if optind == 0 then 1 else optind
      ensures this.optind == base && place == "" && done == []
    {
      var start := if optind == 0 then 1 else optind;
      this.g, this.argv, this.optind := g, argv, start;
      this.optarg, this.optopt, this.longIndex, this.flagStore := None, BADCH, 0, map[];
      this.place, this.nonoptStart, this.nonoptEnd := "", -1, -1;
      this.args, this.base, this.done := argv[..], start, [];
    }

    ghost predicate Valid()
      reads this`optind, this`place, this`nonoptStart, this`nonoptEnd, this`done, argv
    {
      && Scanning()
      && (place == "" ==> nonoptStart == -1 || -1 != nonoptEnd < optind)
      && (place != "" ==> optind < |args| && (nonoptStart == -1 || nonoptEnd != -1))
    }

    ghost predicate Scanning()
      reads this`optind, this`place, this`nonoptStart, this`nonoptEnd, this`done, argv
    {
      ScanningAt(g, argv[..], args, base, optind, done, nonoptStart, nonoptEnd, place)
    }

    /** The calls still to come. */
    ghost function Future(): seq<Outcome>
      requires Scanning()
      reads this`optind, this`place, this`nonoptStart, this`nonoptEnd, this`done, argv
    {
      Outcomes(g, args, optind, place)
    }

    /** What a call that found an option leaves behind. */
    twostate predicate Reports(o: Outcome, ch: int)
      reads this
    {
      Reported(o, ch, old(optopt), old(longIndex), old(flagStore))
    }

    predicate Reported(o: Outcome, ch: int, optopt0: int, longIndex0: nat, flagStore0: map<int, int>)
      reads this
    {
      && ch == o.ch && optarg == o.optarg
      && optopt == (if o.optopt == None then optopt0 else o.optopt.value)
      && longIndex == (if o.long == None then longIndex0 else o.long.value)
      && flagStore == (if o.long != None && o.long.value < |g.longs| && g.longs[o.long.value].flag != None
                       then flagStore0[g.longs[o.long.value].flag.value := g.longs[o.long.value].val]
                       else flagStore0)
      && optind == o.next && place == o.rest
    }

    /** What a call that returns `ch` leaves behind. */
    function Left(ch: int): Effect
      reads this`optarg, this`optopt, this`longIndex, this`flagStore, this`optind, this`place
    {
      Effect(ch, optarg, optopt, longIndex, flagStore, optind, place)
    }

    /** Looks `key` up in the long-option table. */
    method ResolveLong(key: string) returns (match_: int, ambiguous: bool)
      ensures Resolve(g.longs, key) ==
              if ambiguous then Ambiguous else if match_ == -1 then Unknown
              else if match_ >= 0 then Found(match_) else Unknown
      ensures -1 <= match_ < |g.longs|
    {
      var exactMatch, secondPartialMatch := false, false;
      match_ := -1;
      var i := 0;
      while i < |g.longs|
        invariant 0 <= i <= |g.longs| && !exactMatch
        invariant -1 <= match_ < i
        invariant forall j :: 0 <= j < i ==> !Matches(g.longs[j], key, true)
        invariant match_ == -1 ==> !secondPartialMatch && forall j :: 0 <= j < i ==> !Matches(g.longs[j], key, false)
        invariant match_ != -1 ==> Matches(g.longs[match_], key, false)
        invariant forall j :: 0 <= j < match_ ==> !Matches(g.longs[j], key, false)
        invariant match_ != -1 ==>
          (secondPartialMatch <==> exists j :: match_ < j < i && Matches(g.longs[j], key, false)
                                               && !Interchangeable(g.longs[j], g.longs[match_]))
      {
        if key <= g.longs[i].name {
          if |g.longs[i].name| == |key| {
            match_ := i;
            exactMatch := true;
            break;
          }
          if match_ == -1 {
            match_ := i;
          } else if g.longs[i].hasArg != g.longs[match_].hasArg || g.longs[i].flag != g.longs[match_].flag
                    || g.longs[i].val != g.longs[match_].val {
            secondPartialMatch := true;
          }
        }
        i := i + 1;
      }
      ambiguous := !exactMatch && secondPartialMatch;
    }

    /** The long option whose text is `place`, in element `optind`. */
    method ParseLongOptions() returns (ch: int)
      requires g.Permuting() && optind < |args| == argv.Length && argv[optind..] == args[optind..]
      requires optarg == None
      modifies this`optind, this`optarg, this`optopt, this`longIndex, this`flagStore, this`place
      ensures Reports(LongOutcome(g, args, old(optind), old(place)), ch)
      ensures LongRule(g, args, old(optind), old(place), Left(ch))
    {
      ghost var i := optind;
      var currentArgv := place;
      optind := optind + 1;
      var len := Find(currentArgv, '=');
      var hasEqual := if len < |currentArgv| then Some(currentArgv[len + 1..]) else None;
      var match_, ambiguous := ResolveLong(currentArgv[..len]);
      place := "";
      if ambiguous || match_ == -1 {
        optopt := 0;
        ch := BADCH;
      } else {
        ch := TakeFound(match_, hasEqual);
      }
      LongObeys(g, args, i, currentArgv, Left(ch));
    }

    /** The entry of the table that was found, and its argument. */
    method TakeFound(match_: nat, hasEqual: Option<string>) returns (ch: int)
      requires g.Permuting() && 0 < optind <= |args| == argv.Length && argv[optind - 1..] == args[optind - 1..]
      requires match_ < |g.longs| && optarg == None && place == ""
      modifies this`optind, this`optarg, this`optopt, this`longIndex, this`flagStore
      ensures Reports(FoundOutcome(g, args, old(optind) - 1, match_, hasEqual), ch)
      ensures EntryRule(g, args, old(optind) - 1, match_, hasEqual, Left(ch))
    {
      assert optind < argv.Length ==> argv[optind - 1..][1] == args[optind - 1..][1];
      var l := g.longs[match_];
      if l.hasArg == NoArgument && hasEqual != None {
        optopt := if l.flag == None then l.val else 0;
        return BADCH;
      }
      if l.hasArg == RequiredArgument || l.hasArg == OptionalArgument {
        if hasEqual != None {
          optarg := hasEqual;
        } else if l.hasArg == RequiredArgument {
          optarg := if optind < argv.Length then Some(argv[optind]) else None;
          optind := optind + 1;
        }
      }
      if l.hasArg == RequiredArgument && optarg == None {
        optopt := if l.flag == None then l.val else 0;
        optind := optind - 1;
        return g.BadArg();
      }
      longIndex := match_;
      if l.flag != None {
        flagStore := flagStore[l.flag.value := l.val];
        return 0;
      }
      return l.val;
    }

    /** Exchanges the skipped non-options with the options scanned since. */
    method ExchangeSkipped()
      requires Layout(argv[..], args, base, optind, done, nonoptStart, nonoptEnd)
      requires nonoptStart != -1 && -1 != nonoptEnd < optind
      modifies this`nonoptStart, this`nonoptEnd, argv
      ensures Layout(argv[..], args, base, optind, done, nonoptStart, nonoptEnd)
      ensures nonoptStart == optind - old(nonoptEnd - nonoptStart) && nonoptEnd == -1
    {
      LayoutPermute(argv[..], args, base, optind, done, nonoptStart, nonoptEnd);
      PermuteArgs(argv, nonoptStart, nonoptEnd, optind);
      ghost var now := argv[..];
      nonoptStart := optind - (nonoptEnd - nonoptStart);
      nonoptEnd := -1;
      assert argv[..] == now;
    }

    /** Ends the scan: `optind` becomes the first non-option. */
    method Finish()
      requires Layout(argv[..], args, base, optind, done, nonoptStart, nonoptEnd)
      requires nonoptEnd < optind
      modifies this`optind, this`nonoptStart, this`nonoptEnd, argv
      ensures Partitioned(argv[..], args, base, optind, done + Repeat(false, |args| - old(optind)))
      ensures nonoptStart == -1 && nonoptEnd == -1
    {
      if nonoptEnd != -1 {
        ExchangeSkipped();
      }
      LayoutFinal(argv[..], args, base, optind, done, nonoptStart);
      if nonoptStart != -1 {
        optind := nonoptStart;
      }
      nonoptStart, nonoptEnd := -1, -1;
    }

    /** Adds the non-option at `optind` to the skipped block. */
    method SkipNonOption()
      requires Scanning() && place == "" && nonoptEnd == -1 && optind < |args| && IsNonOption(args[optind])
      modifies this`optind, this`nonoptStart, this`done
      ensures Scanning() && optind == old(optind) + 1 && Future() == old(Future()) && done == old(done) + Repeat(false, 1)
    {
      ghost var now := argv[..];
      ScanNonOption(g, now, args, base, optind, done, nonoptStart);
      nonoptStart := if nonoptStart == -1 then optind else nonoptStart;
      done := done + Repeat(false, 1);
      optind := optind + 1;
      assert argv[..] == now;
    }

    /** Brings the skipped non-options up to where the scan stands. */
    method SettleSkipped()
      requires Scanning() && nonoptEnd < optind
      modifies this`nonoptStart, this`nonoptEnd, argv
      ensures Scanning() && nonoptEnd == -1 && Future() == old(Future())
    {
      if nonoptStart != -1 && nonoptEnd != -1 {
        ExchangeSkipped();
      }
    }

    /** Moves the scan past the non-option at `optind`. */
    method PassNonOption(ghost from: nat, ghost before: seq<bool>)
      requires Scanning() && place == "" && nonoptEnd < optind < |args| && IsNonOption(args[optind])
      requires Passed(from, optind, before)
      modifies this`optind, this`nonoptStart, this`nonoptEnd, this`done, argv
      ensures Scanning() && nonoptEnd < optind == old(optind) + 1 && Future() == old(Future())
      ensures Passed(from, optind, before)
    {
      MarksOn(before, false, optind - from);
      SettleSkipped();
      SkipNonOption();
    }

    /** Moves the scan past the non-options ahead of it. */
    method SkipNonOptions()
      requires Valid() && place == ""
      modifies this`optind, this`nonoptStart, this`nonoptEnd, this`done, argv
      ensures Scanning() && nonoptEnd < optind && Future() == old(Future())
      ensures optind < |args| ==> argv[optind] == args[optind] && !IsNonOption(args[optind])
      ensures Passed(old(optind), optind, old(done))
    {
      MarksOn(done, false, 0);
      var ahead := AtNonOption();
      while ahead
        invariant Scanning() && place == "" && nonoptEnd < optind
        invariant Passed(old(optind), optind, old(done))
        invariant Future() == old(Future())
        invariant optind < |args| ==> argv[optind] == args[optind] && IsNonOption(args[optind]) == ahead
        invariant ahead ==> optind < |args|
        decreases |args| - optind
      {
        PassNonOption(old(optind), old(done));
        ahead := AtNonOption();
      }
    }

    /** The elements from `from` up to `to` have been passed as non-options. */
    ghost predicate Passed(from: nat, to: nat, before: seq<bool>)
      reads this`done
    {
      && from <= to <= |args| && done == before + Repeat(false, to - from)
      && forall j :: from <= j < to ==> IsNonOption(args[j])
    }

    /** Tells whether a non-option is next. */
    method AtNonOption() returns (ahead: bool)
      requires Scanning()
      ensures ahead <==> optind < |args| && IsNonOption(args[optind])
      ensures optind < |args| ==> argv[optind] == args[optind]
    {
      Untouched(g, argv[..], args, base, optind, done, nonoptStart, nonoptEnd, place);
      ahead := optind < argv.Length && IsNonOption(argv[optind]);
    }

    /** Ends the scan: all that is left are non-options. */
    method FinishAll()
      requires Layout(argv[..], args, base, optind, done, nonoptStart, nonoptEnd) && nonoptEnd < optind
      modifies this`optind, this`nonoptStart, this`nonoptEnd, this`done, argv
      ensures done == old(done) + Repeat(false, |args| - old(optind))
      ensures Partitioned(argv[..], args, base, optind, done)
      ensures nonoptStart == -1 && nonoptEnd == -1
    {
      ghost var marks := done + Repeat(false, |args| - optind);
      Finish();
      ghost var now := argv[..];
      done := marks;
      assert argv[..] == now;
    }

    /** Ends the scan at the end of the vector. */
    method ScanEnd()
      requires Scanning() && place == "" && optind == |args| && nonoptEnd < optind
      modifies this`optind, this`nonoptStart, this`nonoptEnd, this`done, argv
      ensures done == old(done) == Marks(g, args, base, "") && Partitioned(argv[..], args, base, optind, done)
      ensures nonoptStart == -1 && nonoptEnd == -1
    {
      assert done + Repeat(false, 0) == done + [] == done;
      FinishAll();
    }

    /** Scans the `--` at `optind`, which ends the options. */
    method ScanTerminator()
      requires Scanning() && place == "" && optind < |args| && args[optind] == "--" && nonoptEnd < optind
      modifies this`optind, this`nonoptStart, this`nonoptEnd, this`done, argv
      ensures done == old(done) + Repeat(true, 1) + Repeat(false, |args| - old(optind) - 1)
      ensures done == Marks(g, args, base, "") && Partitioned(argv[..], args, base, optind, done)
      ensures nonoptStart == -1 && nonoptEnd == -1
    {
      TakeDashes();
      FinishAll();
    }

    method TakeDashes()
      requires Scanning() && place == "" && optind < |args| && args[optind] == "--" && nonoptEnd < optind
      modifies this`optind, this`nonoptEnd, this`done
      ensures Layout(argv[..], args, base, optind, done, nonoptStart, nonoptEnd) && nonoptEnd < optind == old(optind) + 1
      ensures done == old(done) + Repeat(true, 1) && done + Repeat(false, |args| - optind) == Marks(g, args, base, "")
    {
      ghost var now := argv[..];
      nonoptEnd := if nonoptStart != -1 && nonoptEnd == -1 then optind else nonoptEnd;
      ScanDashes(g, now, args, base, optind, done, nonoptStart, nonoptEnd);
      done := done + Repeat(true, 1);
      optind := optind + 1;
      assert argv[..] == now;
    }

    /** Starts on the option element at `optind`. */
    method StartOption(ghost from: nat, ghost before: seq<bool>)
      requires Scanning() && place == "" && optind < |args| && argv[optind] == args[optind]
      requires !IsNonOption(args[optind]) && args[optind] != "--" && nonoptEnd < optind && Passed(from, optind, before)
      modifies this`place, this`nonoptEnd
      ensures Valid() && place == args[optind][1..] != "" && Future() == old(Future()) && Entered(from, optind, before)
    {
      ghost var now := argv[..];
      EnterElement(g, args, base, done, optind);
      nonoptEnd := if nonoptStart != -1 && nonoptEnd == -1 then optind else nonoptEnd;
      place := argv[optind][1..];
      assert argv[..] == now;
    }

    /** Advances to the next option. Returns true if there is one, whose text
        after the dash is then in `place`; false at the end of the vector or
        at `--`. */
    method NextElement() returns (found: bool, ghost at: nat)
      requires Valid() && place == ""
      modifies this`optind, this`place, this`nonoptStart, this`nonoptEnd, this`done, argv
      ensures found ==> Valid() && place != "" && Future() == old(Future()) && at == optind && Entered(old(optind), at, old(done))
      ensures !found ==> old(Future()) == [] && done == Marks(g, args, base, "")
      ensures !found ==> EndedAt(old(optind), at, old(done)) && place == ""
    {
      SkipNonOptions();
      at := optind;
      if optind >= argv.Length || argv[optind] == "--" {
        EndScan(old(optind), old(done));
        return false, at;
      }
      StartOption(old(optind), old(done));
      return true, at;
    }

    /** Ends the scan at the end of the vector or at `--`. */
    method EndScan(ghost from: nat, ghost before: seq<bool>)
      requires Scanning() && place == "" && nonoptEnd < optind && Passed(from, optind, before)
      requires optind < |args| ==> args[optind] == "--"
      modifies this`optind, this`nonoptStart, this`nonoptEnd, this`done, argv
      ensures done == Marks(g, args, base, "") && EndedAt(from, old(optind), before)
    {
      if optind >= argv.Length {
        ScanEnd();
      } else {
        MarksJoin(done, Repeat(true, 1), Repeat(false, |args| - optind - 1));
        ScanTerminator();
      }
      assert done + [] == done;
    }

    /** The first element from `from` on that looks like an option is `at`, and
        is being read behind its dash. */
    ghost predicate Entered(from: nat, at: nat, before: seq<bool>)
      reads this`done, this`place
    {
      && Passed(from, at, before) && at < |args|
      && !IsNonOption(args[at]) && args[at] != "--" && place == args[at][1..]
    }

    /** No element from `from` on is an option before the `--` at `at`, or the
        end of the vector; it ends with all marked elements first. */
    ghost predicate EndedAt(from: nat, at: nat, before: seq<bool>)
      reads this`done, this`optind, this`nonoptStart, this`nonoptEnd, argv
    {
      && from <= at <= |args| && (forall j :: from <= j < at ==> IsNonOption(args[j]))
      && (at < |args| ==> args[at] == "--")
      && done == before + Repeat(false, at - from) + (if at < |args| then Repeat(true, 1) + Repeat(false, |args| - at - 1) else [])
      && base <= |args| && |done| == |args| - base && Partitioned(argv[..], args, base, optind, done)
      && nonoptStart == -1 && nonoptEnd == -1
    }

    /** The option letter at the head of `place`, in element `optind`. With a
        long-option table a leading dash never gets here. */
    method ParseShortOption() returns (ch: int)
      requires g.Permuting() && optind < |args| == argv.Length && argv[optind..] == args[optind..]
      requires optarg == None && place != "" && place[0] != '-'
      modifies this`optind, this`optarg, this`optopt, this`longIndex, this`flagStore, this`place
      ensures Reports(ShortOutcome(g, args, old(optind), old(place)), ch)
      ensures OptionRule(g, args, old(optind), old(place), Left(ch))
    {
      var optchar := place[0];
      place := place[1..];
      var oli := Find(g.options, optchar);
      if optchar == ':' || oli == |g.options| {
        if place == "" {
          optind := optind + 1;
        }
        optopt := optchar as int;
        return BADCH;
      }
      if optchar == 'W' && g.At(oli + 1) == ';' {
        ch := ParsePrefix();
      } else {
        ch := ParseLetter(optchar, oli);
      }
    }

    /** The letter `W` that introduces a long option, the rest of which, or the
        next element, is its text. */
    method ParsePrefix() returns (ch: int)
      requires g.Permuting() && optind < |args| == argv.Length && argv[optind..] == args[optind..]
      requires optarg == None
      modifies this`optind, this`optarg, this`optopt, this`longIndex, this`flagStore, this`place
      ensures Reports(PrefixOutcome(g, args, old(optind), old(place)), ch)
      ensures PrefixRule(g, args, old(optind), old(place), Left(ch))
    {
      ghost var i := optind;
      if place == "" {
        optind := optind + 1;
        if optind >= argv.Length {
          optopt := 'W' as int;
          return g.BadArg();
        }
        assert argv[i..][1] == args[i..][1];
        place := argv[optind];
      }
      assert argv[optind..] == argv[i..][optind - i..];
      ch := ParseLongOptions();
    }

    /** A known option letter and its argument, if it takes one. */
    method ParseLetter(optchar: char, oli: nat) returns (ch: int)
      requires optind < |args| == argv.Length && argv[optind..] == args[optind..]
      requires optarg == None
      modifies this`optind, this`optarg, this`optopt, this`place
      ensures Reports(LetterOutcome(g, args, old(optind), optchar, oli, old(place)), ch)
      ensures g.Letter(optchar, oli) ==> LetterRule(g, args, old(optind), [optchar] + old(place), oli, Left(ch))
    {
      ghost var i := optind;
      if g.At(oli + 1) != ':' {
        if place == "" {
          optind := optind + 1;
        }
      } else {
        if place != "" {
          optarg := Some(place);
        } else if g.At(oli + 2) != ':' {
          optind := optind + 1;
          if optind >= argv.Length {
            optopt := optchar as int;
            return g.BadArg();
          }
          assert argv[i..][1] == args[i..][1];
          optarg := Some(argv[optind]);
        }
        place := "";
        optind := optind + 1;
      }
      return optchar as int;
    }

    /** The option at `place`, long after a second dash. */
    method ParseOption() returns (ch: int)
      requires g.Permuting() && optind < |args| == argv.Length && argv[optind..] == args[optind..]
      requires optarg == None && place != ""
      modifies this`optind, this`optarg, this`optopt, this`longIndex, this`flagStore, this`place
      ensures Reports(OptionOutcome(g, args, old(optind), old(place)), ch)
      ensures OptionRule(g, args, old(optind), old(place), Left(ch))
    {
      if place[0] == '-' {
        place := place[1..];
        ch := ParseLongOptions();
      } else {
        ch := ParseShortOption();
      }
    }

    /** The option read from element `i` on is accounted for. */
    ghost method Account(i: nat, now: seq<string>, o: Outcome)
      requires i <= o.next == optind && place == o.rest && argv[..] == now
      requires ScanningAt(g, now, args, base, o.next, done + Repeat(true, o.next - i), nonoptStart, nonoptEnd, o.rest)
      requires nonoptStart == -1 || -1 != nonoptEnd <= i
      requires place == "" ==> i < optind
      modifies this`done
      ensures Valid() && done == old(done) + Repeat(true, optind - i)
    {
      done := done + Repeat(true, optind - i);
      assert argv[..] == now;
    }

    /** Reads the option at `place` and moves on to what follows it. */
    method ReadOption() returns (ch: int)
      requires Valid() && place != "" && optarg == None
      modifies this
      ensures OptionRule(g, args, old(optind), old(place), Left(ch))
      ensures optind >= old(optind) && done == old(done) + Repeat(true, optind - old(optind))
      ensures Valid() && old(Future()) != []
      ensures Reports(old(Future())[0], ch) && Future() == old(Future())[1..]
    {
      ghost var now, i, o := argv[..], optind, OptionOutcome(g, args, optind, place);
      ScanOption(g, now, args, base, i, done, nonoptStart, nonoptEnd, place, o);
      ch := ParseOption();
      Account(i, now, o);
    }

    /** Starts on the next element of the vector and reads its first option. */
    method NextOption() returns (ch: int, ghost at: nat)
      requires Valid() && place == "" && optarg == None
      modifies this, argv
      ensures old(Future()) == [] ==> ch == END && done == Marks(g, args, base, "") && EndedAt(old(optind), at, old(done))
      ensures old(Future()) != [] ==> Valid() && Reports(old(Future())[0], ch) && Future() == old(Future())[1..]
      ensures old(Future()) != [] ==> ReadAt(old(optind), at, old(done), ch)
    {
      var found;
      found, at := NextElement();
      if !found {
        return END, at;
      }
      ch := ReadFirst(old(optind), old(done));
    }

    /** Reads the first option of the element that has been entered. */
    method ReadFirst(ghost from: nat, ghost before: seq<bool>) returns (ch: int)
      requires Valid() && optarg == None && Entered(from, optind, before) && place != ""
      modifies this
      ensures ReadAt(from, old(optind), before, ch)
      ensures Valid() && old(Future()) != [] && Reports(old(Future())[0], ch) && Future() == old(Future())[1..]
    {
      ch := ReadOption();
    }

    /** The elements from `from` up to `at` are none, and the option read is the
        first of element `at`; it has taken all elements up to `optind`. */
    ghost predicate ReadAt(from: nat, at: nat, before: seq<bool>, ch: int)
      reads this
    {
      && from <= at < |args| && (forall j :: from <= j < at ==> IsNonOption(args[j]))
      && !IsNonOption(args[at]) && args[at] != "--" && OptionRule(g, args, at, args[at][1..], Left(ch))
      && at <= optind && done == before + Repeat(false, at - from) + Repeat(true, optind - at)
    }

    /** One call of `getopt_long`: it reports the next option of the vector as
        it was given, however much has been permuted; when none is left it
        returns -1 with the vector stably partitioned. `at` is the element the
        option is read from. */
    method GetoptLong() returns (ch: int, ghost at: nat)
      requires Valid()
      modifies this, argv
      ensures ch == END <==> old(Future()) == []
      ensures ch == END ==> done == Marks(g, args, base, "") && EndedAt(old(optind), at, old(done))
      ensures ch != END ==> Valid() && Reports(old(Future())[0], ch) && Future() == old(Future())[1..]
      ensures ch != END && old(place) == "" ==> ReadAt(old(optind), at, old(done), ch)
      ensures ch != END && old(place) != "" ==>
                && at == old(optind) <= optind && at < |args| && OptionRule(g, args, at, old(place), Left(ch))
                && done == old(done) + Repeat(true, optind - at)
    {
      at := optind;
      optarg := None;
      if place == "" {
        ch, at := NextOption();
      } else {
        ch := ReadOption();
      }
    }
  }

  /** The caller's loop over a whole vector: the options are reported as if
      the vector were never permuted, and it ends stably partitioned. */
  method ScanAll(scanner: Scanner) returns (options: seq<(int, Option<string>)>)
    requires scanner.Valid() && scanner.optind == scanner.base && scanner.place == "" && scanner.done == []
    modifies scanner, scanner.argv
    ensures var marks := Marks(scanner.g, scanner.args, scanner.base, "");
            Partitioned(scanner.argv[..], scanner.args, scanner.base, scanner.optind, marks)
    ensures |options| == |old(scanner.Future())|
    ensures forall i :: 0 <= i < |options| ==> options[i] == (old(scanner.Future())[i].ch, old(scanner.Future())[i].optarg)
  {
    options := [];
    ghost var all := scanner.Future();
    while true
      invariant |options| <= |all| && scanner.Valid() && scanner.Future() == all[|options|..]
      invariant forall i :: 0 <= i < |options| ==> options[i] == (all[i].ch, all[i].optarg)
      decreases |all| - |options|
    {
      var ch, at := scanner.GetoptLong();
      if ch == END {
        return;
      }
      options := options + [(ch, scanner.optarg)];
    }
  }
}
