/** What one call of `getopt_long` means, read off the unpermuted argument
    vector: the reference the permuting scanner is measured against
    (src/getopt.c, options with FLAG_PERMUTE and a long-option table). */
module OptionGrammar {
  import opened Wrappers

  datatype HasArg = NoArgument | RequiredArgument | OptionalArgument

  /** `flag` names the variable that receives `val`, if there is one. */
  datatype LongOption = LongOption(name: string, hasArg: HasArg, flag: Option<int>, val: int)

  /** The option letters and the long-option table of a scan. A leading `+`
      or `-` would switch permutation off, and a long option with value -1
      could not be told from the end of the options. */
  datatype Grammar = Grammar(options: string, longs: seq<LongOption>) {
    predicate Permuting() {
      && (options != "" ==> options[0] != '+' && options[0] != '-')
      && (forall l :: l in longs ==> l.val != -1)
    }

    function BadArg(): int {
      if options != "" && options[0] == ':' then ':' as int else BADCH
    }

    /** The `k`th option letter is `c`, and no earlier one is; a colon is none,
        nor is a `W` before a semicolon. */
    predicate Letter(c: char, k: nat) {
      && k < |options| && options[k] == c && c !in options[..k]
      && c != ':' && !(c == 'W' && ";" <= options[k + 1..])
    }

    /** The `k`th option letter is the first `W`, before a semicolon. */
    predicate Prefix(c: char, k: nat) {
      c == 'W' && k < |options| && options[k] == c && c !in options[..k] && ";" <= options[k + 1..]
    }

    /** The option string behaves as if followed by a NUL character. */
    function At(k: nat): char {
      if k < |options| then options[k] else '\0'
    }
  }

  const BADCH: int := '?' as int
  const END: int := -1

  /** The effect of one call on an option: the value returned, `optarg`,
      `optopt` where it is set, the long option matched, and where the scan
      stands afterwards (`rest` is what is left of a cluster of letters). */
  datatype Outcome = Outcome(ch: int, optarg: Option<string>, optopt: Option<int>, long: Option<nat>,
                             next: nat, rest: string)

  /** Index of the first occurrence of `c`, or the length. */
  function Find(s: string, c: char): (i: nat)
    ensures i <= |s| && c !in s[..i]
    ensures i < |s| ==> s[i] == c
  {
    if s == "" || s[0] == c then 0
    else
      var i := 1 + Find(s[1..], c);
      assert s[..i] == [s[0]] + s[1..][..i - 1];
      i
  }

  predicate Matches(l: LongOption, key: string, exact: bool) {
    if exact then l.name == key else key <= l.name
  }

  /** The first entry from `from` on that matches `key`. */
  function First(longs: seq<LongOption>, key: string, exact: bool, from: nat): (i: nat)
    requires from <= |longs|
    ensures from <= i <= |longs|
    ensures i < |longs| ==> Matches(longs[i], key, exact)
    ensures forall j :: from <= j < i ==> !Matches(longs[j], key, exact)
    decreases |longs| - from
  {
    if from == |longs| || Matches(longs[from], key, exact) then from else First(longs, key, exact, from + 1)
  }

  datatype Resolution = Unknown | Ambiguous | Found(index: nat)

  /** Two entries an abbreviation may stand for without being ambiguous. */
  predicate Interchangeable(a: LongOption, b: LongOption) {
    a.hasArg == b.hasArg && a.flag == b.flag && a.val == b.val
  }

  /** An exact name wins; otherwise the abbreviation must name entries that
      are interchangeable with the first of them. */
  function Resolve(longs: seq<LongOption>, key: string): (r: Resolution)
    ensures r.Found? ==> r.index < |longs| && key <= longs[r.index].name
    ensures r.Unknown? <==> forall l :: l in longs ==> !(key <= l.name)
    ensures (exists l :: l in longs && l.name == key) ==> r.Found? && longs[r.index].name == key
    ensures r.Found? ==> forall j :: 0 <= j < r.index ==>
              longs[j].name != key && (key <= longs[j].name ==> longs[r.index].name == key)
    ensures r.Ambiguous? <==> (forall l :: l in longs ==> l.name != key)
                              && exists l, l' :: l in longs && l' in longs && key <= l.name && key <= l'.name && !Interchangeable(l, l')
  {
    var e, p := First(longs, key, true, 0), First(longs, key, false, 0);
    if e < |longs| then Found(e)
    else if p == |longs| then Unknown
    else if exists j :: p < j < |longs| && Matches(longs[j], key, false) && !Interchangeable(longs[j], longs[p])
    then Ambiguous
    else Found(p)
  }

  /** The value reported in `optopt` for a misused long option. */
  function Reported(l: LongOption): int {
    if l.flag == None then l.val else 0
  }

  /** Entry `m` of the table named in element `i`, perhaps with an argument
      after an equals sign. */
  function FoundOutcome(g: Grammar, args: seq<string>, i: nat, m: nat, equal: Option<string>): (o: Outcome)
    requires i < |args| && m < |g.longs| && g.Permuting()
    ensures i < o.next <= |args| && o.rest == "" && o.ch != END
  {
    var l := g.longs[m];
    var given := if l.hasArg == NoArgument then None else equal;
    var ch := if l.flag == None then l.val else 0;
    if l.hasArg == NoArgument && equal != None then
      Outcome(BADCH, None, Some(Reported(l)), None, i + 1, "")
    else if l.hasArg != RequiredArgument || given != None then
      Outcome(ch, given, None, Some(m), i + 1, "")
    else if i + 1 < |args| then
      Outcome(ch, Some(args[i + 1]), None, Some(m), i + 2, "")
    else
      Outcome(g.BadArg(), None, Some(Reported(l)), None, i + 1, "")
  }

  /** Long option `text` found in element `i`. */
  function LongOutcome(g: Grammar, args: seq<string>, i: nat, text: string): (o: Outcome)
    requires i < |args| && g.Permuting()
    ensures i < o.next <= |args| && o.rest == "" && o.ch != END
  {
    var eq := Find(text, '=');
    match Resolve(g.longs, text[..eq])
    case Unknown => Outcome(BADCH, None, Some(0), None, i + 1, "")
    case Ambiguous => Outcome(BADCH, None, Some(0), None, i + 1, "")
    case Found(m) => FoundOutcome(g, args, i, m, if eq < |text| then Some(text[eq + 1..]) else None)
  }

  /** The letter `W` as a prefix of long options, `rest` being what follows it
      in element `i`. */
  function PrefixOutcome(g: Grammar, args: seq<string>, i: nat, rest: string): (o: Outcome)
    requires i < |args| && g.Permuting()
    ensures i < o.next <= |args| && o.rest == "" && o.ch != END
  {
    if rest != "" then LongOutcome(g, args, i, rest)
    else if i + 1 >= |args| then Outcome(g.BadArg(), None, Some('W' as int), None, i + 1, "")
    else LongOutcome(g, args, i + 1, args[i + 1])
  }

  /** The letter `c`, the `k`th of the option letters, with what follows it. */
  function LetterOutcome(g: Grammar, args: seq<string>, i: nat, c: char, k: nat, rest: string): (o: Outcome)
    requires i < |args|
    ensures i <= o.next <= |args| && o.ch != END
    ensures o.next == i ==> o.rest == rest != ""
    ensures o.next > i ==> o.rest == ""
  {
    if g.At(k + 1) != ':' then
      Outcome(c as int, None, None, None, if rest == "" then i + 1 else i, rest)
    else if rest != "" then
      Outcome(c as int, Some(rest), None, None, i + 1, "")
    else if g.At(k + 2) == ':' then
      Outcome(c as int, None, None, None, i + 1, "")
    else if i + 1 < |args| then
      Outcome(c as int, Some(args[i + 1]), None, None, i + 2, "")
    else
      Outcome(g.BadArg(), None, Some(c as int), None, i + 1, "")
  }

  /** Option letter at the head of the cluster `place` in element `i`. */
  function ShortOutcome(g: Grammar, args: seq<string>, i: nat, place: string): (o: Outcome)
    requires i < |args| && g.Permuting() && place != ""
    ensures i <= o.next <= |args| && o.ch != END
    ensures o.next == i ==> o.rest == place[1..] != ""
    ensures o.next > i ==> o.rest == ""
  {
    var c, rest := place[0], place[1..];
    var k := Find(g.options, c);
    if c == ':' || k == |g.options| then
      Outcome(BADCH, None, Some(c as int), None, if rest == "" then i + 1 else i, rest)
    else if c == 'W' && g.At(k + 1) == ';' then PrefixOutcome(g, args, i, rest)
    else LetterOutcome(g, args, i, c, k, rest)
  }

  function OptionOutcome(g: Grammar, args: seq<string>, i: nat, place: string): (o: Outcome)
    requires i < |args| && g.Permuting() && place != ""
    ensures i <= o.next <= |args| && o.ch != END
    ensures o.next == i ==> o.rest == place[1..] != ""
    ensures o.next > i ==> o.rest == ""
  {
    if place[0] == '-' then LongOutcome(g, args, i, place[1..]) else ShortOutcome(g, args, i, place)
  }

  // ---- What an option does, stated without saying how it is found ----

  /** What a call leaves behind: the value returned, `optarg`, `optopt`, the
      index of a long option, the variables that flags name, `optind`, and what
      is left of a cluster. */
  datatype Effect = Effect(ch: int, optarg: Option<string>, optopt: int, long: nat, flags: map<int, int>,
                           optind: nat, rest: string)

  /** An option letter at the head of `p` in element `i`. Without a colon after
      it in the option string it has no argument, and the next letter of the
      cluster follows. With one, the rest of the cluster is its argument, or the
      next element; with two, the next element is none. */
  predicate LetterRule(g: Grammar, args: seq<string>, i: nat, p: string, k: nat, e: Effect)
    requires i < |args| && p != "" && g.Letter(p[0], k)
  {
    var after, rest := g.options[k + 1..], p[1..];
    && (!(":" <= after) ==>
          e.ch == p[0] as int && e.optarg == None && e.rest == rest && e.optind == if rest == "" then i + 1 else i)
    && (":" <= after && rest != "" ==>
          e.ch == p[0] as int && e.optarg == Some(rest) && e.rest == "" && e.optind == i + 1)
    && ("::" <= after && rest == "" ==>
          e.ch == p[0] as int && e.optarg == None && e.rest == "" && e.optind == i + 1)
    && (":" <= after && !("::" <= after) && rest == "" && i + 1 < |args| ==>
          e.ch == p[0] as int && e.optarg == Some(args[i + 1]) && e.rest == "" && e.optind == i + 2)
    && (":" <= after && !("::" <= after) && rest == "" && i + 1 == |args| ==>
          e.ch == Missing(g) && e.optarg == None && e.optopt == p[0] as int && e.rest == "" && e.optind == i + 1)
  }

  /** Reported for a missing argument. */
  function Missing(g: Grammar): int {
    if ":" <= g.options then ':' as int else '?' as int
  }

  /** A letter that is none: a question mark, and the letter in `optopt`. */
  predicate StrangerRule(i: nat, p: string, e: Effect)
    requires p != ""
  {
    && e.ch == '?' as int && e.optarg == None && e.optopt == p[0] as int && e.rest == p[1..]
    && e.optind == if p[1..] == "" then i + 1 else i
  }

  /** `text` names `key`, with what follows the first equals sign, if any. */
  predicate Named(text: string, key: string, given: Option<string>) {
    '=' !in key && text == match given case None => key case Some(value) => key + "=" + value
  }

  /** Entry `m` named in element `i`: an argument is given after the equals sign
      or, if it is required, in the next element. */
  predicate EntryRule(g: Grammar, args: seq<string>, i: nat, m: nat, given: Option<string>, e: Effect)
    requires i < |args| && m < |g.longs|
  {
    var l := g.longs[m];
    && e.rest == ""
    && (l.hasArg == NoArgument && given != None ==> Refused(l, e) && e.ch == '?' as int && e.optind == i + 1)
    && (l.hasArg == NoArgument && given == None ==> Taken(l, m, e) && e.optarg == None && e.optind == i + 1)
    && (l.hasArg == OptionalArgument ==> Taken(l, m, e) && e.optarg == given && e.optind == i + 1)
    && (l.hasArg == RequiredArgument && given != None ==> Taken(l, m, e) && e.optarg == given && e.optind == i + 1)
    && (l.hasArg == RequiredArgument && given == None && i + 1 < |args| ==>
          Taken(l, m, e) && e.optarg == Some(args[i + 1]) && e.optind == i + 2)
    && (l.hasArg == RequiredArgument && given == None && i + 1 == |args| ==>
          Refused(l, e) && e.ch == Missing(g) && e.optind == i + 1)
  }

  predicate Taken(l: LongOption, m: nat, e: Effect) {
    && e.long == m
    && match l.flag
       case None => e.ch == l.val
       case Some(v) => e.ch == 0 && v in e.flags && e.flags[v] == l.val
  }

  predicate Refused(l: LongOption, e: Effect) {
    e.optarg == None && e.optopt == match l.flag case None => l.val case Some(_) => 0
  }

  /** A key that stands for no entry, or for several, is refused. */
  predicate KeyRule(g: Grammar, args: seq<string>, i: nat, key: string, given: Option<string>, e: Effect)
    requires i < |args|
  {
    var r := Resolve(g.longs, key);
    if r.Found? then EntryRule(g, args, i, r.index, given, e)
    else e.ch == '?' as int && e.optarg == None && e.optopt == 0 && e.rest == "" && e.optind == i + 1
  }

  /** The long option `text` in element `i`. */
  ghost predicate LongRule(g: Grammar, args: seq<string>, i: nat, text: string, e: Effect)
    requires i < |args|
  {
    forall key, given :: Named(text, key, given) ==> KeyRule(g, args, i, key, given, e)
  }

  /** The letter `W` that stands before long options, with `rest` after it. */
  ghost predicate PrefixRule(g: Grammar, args: seq<string>, i: nat, rest: string, e: Effect)
    requires i < |args|
  {
    if rest != "" then LongRule(g, args, i, rest, e)
    else if i + 1 < |args| then LongRule(g, args, i + 1, args[i + 1], e)
    else e.ch == Missing(g) && e.optarg == None && e.optopt == 'W' as int && e.rest == "" && e.optind == i + 1
  }

  /** The option at the head of `p` in element `i`. */
  ghost predicate OptionRule(g: Grammar, args: seq<string>, i: nat, p: string, e: Effect)
    requires i < |args| && p != ""
  {
    var c, rest := p[0], p[1..];
    if c == '-' then LongRule(g, args, i, rest, e)
    else
      && (forall k: nat :: g.Letter(c, k) ==> LetterRule(g, args, i, p, k, e))
      && (c == ':' || c !in g.options ==> StrangerRule(i, p, e))
      && (forall k: nat :: g.Prefix(c, k) ==> PrefixRule(g, args, i, rest, e))
  }

  /** An effect as an outcome has it. */
  predicate Shows(g: Grammar, o: Outcome, e: Effect) {
    && e.ch == o.ch && e.optarg == o.optarg && e.optind == o.next && e.rest == o.rest
    && (o.optopt != None ==> e.optopt == o.optopt.value)
    && (o.long != None ==> e.long == o.long.value)
    && (o.long != None && o.long.value < |g.longs| && g.longs[o.long.value].flag != None ==>
          var l := g.longs[o.long.value]; l.flag.value in e.flags && e.flags[l.flag.value] == l.val)
  }

  lemma FindIs(s: string, c: char, k: nat)
    requires k < |s| && s[k] == c && c !in s[..k]
    ensures Find(s, c) == k
  {
    var i := Find(s, c);
    assert forall j :: 0 <= j < k ==> s[..k][j] == s[j];
    assert forall j :: 0 <= j < i ==> s[..i][j] == s[j];
  }

  lemma LetterObeys(g: Grammar, args: seq<string>, i: nat, p: string, k: nat, e: Effect)
    requires i < |args| && p != "" && g.Letter(p[0], k) && Shows(g, LetterOutcome(g, args, i, p[0], k, p[1..]), e)
    ensures LetterRule(g, args, i, p, k, e)
  {
    var after := g.options[k + 1..];
    assert ":" <= after <==> g.At(k + 1) == ':';
    assert "::" <= after <==> g.At(k + 1) == ':' && g.At(k + 2) == ':';
  }

  lemma EntryObeys(g: Grammar, args: seq<string>, i: nat, m: nat, given: Option<string>, e: Effect)
    requires g.Permuting() && i < |args| && m < |g.longs| && Shows(g, FoundOutcome(g, args, i, m, given), e)
    ensures EntryRule(g, args, i, m, given, e)
  {}

  lemma NamedIs(text: string, key: string, given: Option<string>)
    requires Named(text, key, given)
    ensures var eq := Find(text, '=');
            text[..eq] == key && given == if eq < |text| then Some(text[eq + 1..]) else None
  {
    var eq := Find(text, '=');
    if given == None {
      assert forall j :: 0 <= j < |key| ==> key[j] in key;
    } else {
      assert text[..|key|] == key;
      FindIs(text, '=', |key|);
    }
  }

  lemma LongObeys(g: Grammar, args: seq<string>, i: nat, text: string, e: Effect)
    requires g.Permuting() && i < |args| && Shows(g, LongOutcome(g, args, i, text), e)
    ensures LongRule(g, args, i, text, e)
  {
    forall key, given | Named(text, key, given)
      ensures KeyRule(g, args, i, key, given, e)
    {
      NamedIs(text, key, given);
      var r := Resolve(g.longs, key);
      if r.Found? { EntryObeys(g, args, i, r.index, given, e); }
    }
  }

  /** Whatever the option, its outcome obeys the rules. */
  lemma OptionObeys(g: Grammar, args: seq<string>, i: nat, p: string, e: Effect)
    requires g.Permuting() && i < |args| && p != "" && Shows(g, OptionOutcome(g, args, i, p), e)
    ensures OptionRule(g, args, i, p, e)
  {
    var c, rest := p[0], p[1..];
    if c == '-' {
      LongObeys(g, args, i, rest, e);
    } else {
      forall k: nat | g.Letter(c, k)
        ensures LetterRule(g, args, i, p, k, e)
      {
        FindIs(g.options, c, k);
        assert ";" <= g.options[k + 1..] <==> g.At(k + 1) == ';';
        LetterObeys(g, args, i, p, k, e);
      }
      forall k: nat | g.Prefix(c, k)
        ensures PrefixRule(g, args, i, rest, e)
      {
        FindIs(g.options, c, k);
        if rest != "" {
          LongObeys(g, args, i, rest, e);
        } else if i + 1 < |args| {
          LongObeys(g, args, i + 1, args[i + 1], e);
        }
      }
    }
  }

  predicate IsNonOption(s: string) {
    |s| < 2 || s[0] != '-'
  }

  /** The calls still to come when the scan stands at element `i` with
      `place` left of a cluster. */
  function Outcomes(g: Grammar, args: seq<string>, i: nat, place: string): (os: seq<Outcome>)
    requires i <= |args| && g.Permuting() && (place != "" ==> i < |args|)
    ensures forall o :: o in os ==> o.ch != END
    decreases |args| - i, place == "", |place|
  {
    if place != "" then
      var o := OptionOutcome(g, args, i, place);
      [o] + Outcomes(g, args, o.next, o.rest)
    else if i == |args| || args[i] == "--" then []
    else if IsNonOption(args[i]) then Outcomes(g, args, i + 1, "")
    else
      var o := OptionOutcome(g, args, i, args[i][1..]);
      [o] + Outcomes(g, args, o.next, o.rest)
  }

  /** Which elements from `i` on belong to options, to their arguments or to
      the `--` that ends them; `place` is what is left of element `i`. */
  function Marks(g: Grammar, args: seq<string>, i: nat, place: string): (m: seq<bool>)
    requires i <= |args| && g.Permuting() && (place != "" ==> i < |args|)
    ensures |m| == |args| - i
    decreases |args| - i, place == "", |place|
  {
    if place != "" then
      var o := OptionOutcome(g, args, i, place);
      Repeat(true, o.next - i) + Marks(g, args, o.next, o.rest)
    else if i == |args| then []
    else if args[i] == "--" then [true] + Repeat(false, |args| - i - 1)
    else if IsNonOption(args[i]) then [false] + Marks(g, args, i + 1, "")
    else
      var o := OptionOutcome(g, args, i, args[i][1..]);
      Repeat(true, o.next - i) + Marks(g, args, o.next, o.rest)
  }

  function Repeat(b: bool, n: nat): (m: seq<bool>)
    ensures |m| == n && forall j :: 0 <= j < n ==> m[j] == b
  {
    seq(n, _ => b)
  }

  /** The elements whose mark is `b`, in their order. */
  function Select<T>(s: seq<T>, marks: seq<bool>, b: bool): (r: seq<T>)
    requires |s| == |marks|
    ensures |r| <= |s|
  {
    if s == [] then []
    else (if marks[0] == b then [s[0]] else []) + Select(s[1..], marks[1..], b)
  }

  lemma {:induction false} SelectAppend<T>(s: seq<T>, marks: seq<bool>, s': seq<T>, marks': seq<bool>, b: bool)
    requires |s| == |marks| && |s'| == |marks'|
    ensures Select(s + s', marks + marks', b) == Select(s, marks, b) + Select(s', marks', b)
  {
    if s == [] {
      assert s + s' == s' && marks + marks' == marks';
    } else {
      var h := if marks[0] == b then [s[0]] else [];
      assert (s + s')[1..] == s[1..] + s' && (marks + marks')[1..] == marks[1..] + marks';
      SelectAppend(s[1..], marks[1..], s', marks', b);
      assert h + (Select(s[1..], marks[1..], b) + Select(s', marks', b)) == Select(s, marks, b) + Select(s', marks', b);
    }
  }

  lemma {:induction false} SelectRepeat<T>(s: seq<T>, v: bool, b: bool)
    ensures Select(s, Repeat(v, |s|), b) == if v == b then s else []
  {
    if s != [] {
      assert Repeat(v, |s|)[1..] == Repeat(v, |s| - 1);
      SelectRepeat(s[1..], v, b);
    }
  }

  /** A selection and its complement together have every element once. */
  lemma {:induction false} SelectComplement<T>(s: seq<T>, marks: seq<bool>)
    requires |s| == |marks|
    ensures multiset(Select(s, marks, true)) + multiset(Select(s, marks, false)) == multiset(s)
    ensures |Select(s, marks, true)| + |Select(s, marks, false)| == |s|
  {
    if s != [] {
      SelectComplement(s[1..], marks[1..]);
      assert s == [s[0]] + s[1..];
      CountFirst(s[0], s[1..], Select(s[1..], marks[1..], true), Select(s[1..], marks[1..], false));
    }
  }

  lemma CountFirst<T>(x: T, rest: seq<T>, a: seq<T>, b: seq<T>)
    requires multiset(a) + multiset(b) == multiset(rest)
    ensures multiset([x] + a) + multiset(b) == multiset([x] + rest)
    ensures multiset(a) + multiset([x] + b) == multiset([x] + rest)
  {}
}
