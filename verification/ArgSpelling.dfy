/** Argument vectors as they are typed: what an option, its argument or an
    operand is spelled as, and what a scan of a well-spelled vector reports. */
module ArgSpelling {
  import opened Wrappers
  import opened OptionGrammar
  import opened ArgScanner

  /** An argument that is left out, stands in the element of its option, or in
      the next one. */
  datatype Value = Bare | Joined(text: string) | Apart(text: string)

  /** An operand; a cluster of letters, the last of which may have an argument;
      or a long option by a key that stands for entry `entry`. */
  datatype Item =
    | Operand(text: string)
    | Letters(flags: string, last: char, value: Value)
    | Long(key: string, entry: nat, value: Value)

  function Spelling(item: Item): (words: seq<string>)
    ensures 1 <= |words| <= 2
  {
    match item
    case Operand(text) => [text]
    case Letters(flags, last, Bare) => ["-" + (flags + [last])]
    case Letters(flags, last, Joined(text)) => ["-" + (flags + [last] + text)]
    case Letters(flags, last, Apart(text)) => ["-" + (flags + [last]), text]
    case Long(key, _, Bare) => ["--" + key]
    case Long(key, _, Joined(text)) => ["--" + (key + "=" + text)]
    case Long(key, _, Apart(text)) => ["--" + key, text]
  }

  function SpellAll(items: seq<Item>): seq<string> {
    if items == [] then [] else Spelling(items[0]) + SpellAll(items[1..])
  }

  /** A letter followed in the option string by exactly `colons` colons, or by
      two of perhaps more. */
  ghost predicate Takes(g: Grammar, c: char, colons: nat) {
    c != '-' && exists k: nat :: g.Letter(c, k) && Colons(g.options[k + 1..], colons)
  }

  predicate Colons(after: string, n: nat) {
    if n == 0 then !(":" <= after) else if n == 1 then ":" <= after && !("::" <= after) else "::" <= after
  }

  /** An item the grammar allows. */
  ghost predicate Spellable(g: Grammar, item: Item) {
    match item
    case Operand(text) => text == "" || text == "-" || text[0] != '-'
    case Letters(flags, last, value) =>
      && (forall f :: f in flags ==> Takes(g, f, 0))
      && (match value
          case Bare => Takes(g, last, 0) || Takes(g, last, 2)
          case Joined(text) => text != "" && (Takes(g, last, 1) || Takes(g, last, 2))
          case Apart(_) => Takes(g, last, 1))
    case Long(key, entry, value) =>
      && '=' !in key && Resolve(g.longs, key) == Found(entry) && entry < |g.longs|
      && (match value
          case Bare => key != "" && g.longs[entry].hasArg != RequiredArgument
          case Joined(_) => g.longs[entry].hasArg != NoArgument
          case Apart(_) => key != "" && g.longs[entry].hasArg == RequiredArgument)
  }

  ghost predicate AllSpellable(g: Grammar, items: seq<Item>) {
    items == [] || (Spellable(g, items[0]) && AllSpellable(g, items[1..]))
  }

  function Given(value: Value): Option<string> {
    match value case Bare => None case Joined(text) => Some(text) case Apart(text) => Some(text)
  }

  /** What is reported of an item: nothing of an operand. */
  function Meaning(g: Grammar, item: Item): (r: seq<(int, Option<string>)>) {
    match item
    case Operand(_) => []
    case Letters(flags, last, value) => FlagsMeaning(flags) + [(last as int, Given(value))]
    case Long(_, entry, value) =>
      [(if entry < |g.longs| && g.longs[entry].flag == None then g.longs[entry].val else 0, Given(value))]
  }

  function FlagsMeaning(flags: string): (r: seq<(int, Option<string>)>) {
    if flags == "" then [] else [(flags[0] as int, None)] + FlagsMeaning(flags[1..])
  }

  function MeaningAll(g: Grammar, items: seq<Item>): seq<(int, Option<string>)> {
    if items == [] then [] else Meaning(g, items[0]) + MeaningAll(g, items[1..])
  }

  /** The words of options and their arguments, or those of operands. */
  function Words(items: seq<Item>, options: bool): seq<string> {
    if items == [] then []
    else (if items[0].Operand? != options then Spelling(items[0]) else []) + Words(items[1..], options)
  }

  /** What a caller sees of the calls to come. */
  function Seen(os: seq<Outcome>): (r: seq<(int, Option<string>)>)
    ensures |r| == |os| && forall i :: 0 <= i < |os| ==> r[i] == (os[i].ch, os[i].optarg)
  {
    seq(|os|, i requires 0 <= i < |os| => (os[i].ch, os[i].optarg))
  }

  lemma SeenFirst(o: Outcome, os: seq<Outcome>)
    ensures Seen([o] + os) == [(o.ch, o.optarg)] + Seen(os)
  {}

  /** The vector has these words from `i` on. */
  predicate Has(args: seq<string>, i: nat, words: seq<string>) {
    i + |words| <= |args| && args[i..i + |words|] == words
  }

  // ---- One item ----

  /** The scan at element `i` reports `seen` and marks the elements up to `n` as
      `mark` before it goes on. */
  ghost predicate Goes(g: Grammar, args: seq<string>, i: nat, place: string, n: nat, seen: seq<(int, Option<string>)>, mark: bool)
    requires g.Permuting() && i <= n <= |args| && (place != "" ==> i < |args|)
  {
    && Seen(Outcomes(g, args, i, place)) == seen + Seen(Outcomes(g, args, n, ""))
    && Marks(g, args, i, place) == Repeat(mark, n - i) + Marks(g, args, n, "")
  }

  lemma LastLetter(g: Grammar, args: seq<string>, i: nat, place: string, c: char, value: Value, n: nat)
    requires g.Permuting() && i < |args| && place != "" && place[0] == c && c != '-'
    requires match value
             case Bare => (Takes(g, c, 0) || Takes(g, c, 2)) && place == [c] && n == i + 1
             case Joined(text) => (Takes(g, c, 1) || Takes(g, c, 2)) && text != "" && place == [c] + text && n == i + 1
             case Apart(text) => Takes(g, c, 1) && place == [c] && i + 1 < |args| && args[i + 1] == text && n == i + 2
    ensures n <= |args| && Goes(g, args, i, place, n, [(c as int, Given(value))], true)
  {
    var k: nat :| g.Letter(c, k)
                  && (Colons(g.options[k + 1..], 0) || Colons(g.options[k + 1..], 1) || Colons(g.options[k + 1..], 2))
                  && (if value == Bare then !Colons(g.options[k + 1..], 1)
                      else if value.Apart? then Colons(g.options[k + 1..], 1) else !Colons(g.options[k + 1..], 0));
    var o := OptionOutcome(g, args, i, place);
    LetterIs(g, args, i, place, k);
    OptionGoes(g, args, i, place, o);
  }

  /** A letter's outcome is that of its place in the option string. */
  lemma LetterIs(g: Grammar, args: seq<string>, i: nat, place: string, k: nat)
    requires g.Permuting() && i < |args| && place != "" && place[0] != '-' && g.Letter(place[0], k)
    ensures OptionOutcome(g, args, i, place) == LetterOutcome(g, args, i, place[0], k, place[1..])
    ensures ":" <= g.options[k + 1..] <==> g.At(k + 1) == ':'
    ensures "::" <= g.options[k + 1..] <==> g.At(k + 1) == ':' && g.At(k + 2) == ':'
  {
    FindIs(g.options, place[0], k);
    assert ";" <= g.options[k + 1..] <==> g.At(k + 1) == ';';
  }

  /** One option is reported and its elements are marked. */
  lemma OptionGoes(g: Grammar, args: seq<string>, i: nat, place: string, o: Outcome)
    requires g.Permuting() && i < |args| && place != "" && o == OptionOutcome(g, args, i, place)
    ensures Seen(Outcomes(g, args, i, place)) == [(o.ch, o.optarg)] + Seen(Outcomes(g, args, o.next, o.rest))
    ensures Marks(g, args, i, place) == Repeat(true, o.next - i) + Marks(g, args, o.next, o.rest)
  {
    SeenFirst(o, Outcomes(g, args, o.next, o.rest));
  }

  /** The letters before the last of a cluster. */
  lemma {:induction false} FlagsGo(g: Grammar, args: seq<string>, i: nat, flags: string, tail: string, n: nat, last: (int, Option<string>))
    requires g.Permuting() && i < n <= |args| && tail != "" && (forall f :: f in flags ==> Takes(g, f, 0))
    requires Goes(g, args, i, tail, n, [last], true)
    ensures Goes(g, args, i, flags + tail, n, FlagsMeaning(flags) + [last], true)
  {
    if flags == "" {
      assert flags + tail == tail && FlagsMeaning(flags) + [last] == [last];
    } else {
      var place, rest := flags + tail, flags[1..] + tail;
      assert place[0] == flags[0] && place[1..] == rest && flags[0] in flags;
      FlagsGo(g, args, i, flags[1..], tail, n, last);
      var k: nat :| g.Letter(flags[0], k) && Colons(g.options[k + 1..], 0);
      LetterIs(g, args, i, place, k);
      var o := OptionOutcome(g, args, i, place);
      OptionGoes(g, args, i, place, o);
      Reassociate((o.ch, o.optarg), FlagsMeaning(flags[1..]), [last], Seen(Outcomes(g, args, n, "")));
      assert Repeat(true, 0) + Marks(g, args, i, rest) == Marks(g, args, i, rest);
    }
  }

  lemma Reassociate<T>(a: T, b: seq<T>, c: seq<T>, d: seq<T>)
    ensures [a] + (b + c + d) == [a] + b + c + d
  {}

  lemma LettersGo(g: Grammar, args: seq<string>, i: nat, item: Item)
    requires g.Permuting() && item.Letters? && Spellable(g, item) && Has(args, i, Spelling(item))
    ensures Goes(g, args, i, "", i + |Spelling(item)|, Meaning(g, item), true)
  {
    var words := Spelling(item);
    var n := i + |words|;
    assert args[i] == args[i..n][0] && (|words| == 2 ==> args[i + 1] == args[i..n][1]);
    var tail := [item.last] + if item.value.Joined? then item.value.text else "";
    assert item.flags + tail == args[i][1..];
    LastLetter(g, args, i, tail, item.last, item.value, n);
    FlagsGo(g, args, i, item.flags, tail, n, (item.last as int, Given(item.value)));
    NotDashes(g, args[i], item.flags, tail);
    EnterGoes(g, args, i, item.flags + tail, n, Meaning(g, item));
  }

  /** A scan enters an element that is no operand behind its dash. */
  lemma EnterGoes(g: Grammar, args: seq<string>, i: nat, place: string, n: nat, seen: seq<(int, Option<string>)>)
    requires g.Permuting() && i < n <= |args| && !IsNonOption(args[i]) && args[i] != "--" && place == args[i][1..]
    requires Goes(g, args, i, place, n, seen, true)
    ensures Goes(g, args, i, "", n, seen, true)
  {}

  lemma NotDashes(g: Grammar, word: string, flags: string, tail: string)
    requires word == "-" + (flags + tail) && tail != "" && tail[0] != '-' && forall f :: f in flags ==> Takes(g, f, 0)
    ensures word != "--" && !IsNonOption(word) && word[1..] == flags + tail
  {
    assert flags != "" ==> flags[0] in flags;
    assert word[1] == (flags + tail)[0];
  }

  lemma LongGo(g: Grammar, args: seq<string>, i: nat, item: Item)
    requires g.Permuting() && item.Long? && Spellable(g, item) && Has(args, i, Spelling(item))
    ensures Goes(g, args, i, "", i + |Spelling(item)|, Meaning(g, item), true)
  {
    var words := Spelling(item);
    var n := i + |words|;
    assert args[i] == args[i..n][0] && (|words| == 2 ==> args[i + 1] == args[i..n][1]);
    var text := if item.value.Joined? then item.key + "=" + item.value.text else item.key;
    Dashed(args[i], text);
    NamedIs(text, item.key, if item.value.Joined? then Some(item.value.text) else None);
    LongOutcomeIs(g, args, i, args[i][1..], text, item);
    ElementGoes(g, args, i, n);
  }

  lemma Dashed(word: string, text: string)
    requires word == "--" + text && text != ""
    ensures word != "--" && !IsNonOption(word) && word[1..] == "-" + text && word[1..][0] == '-' && word[1..][1..] == text
  {}

  /** An element that is one option altogether. */
  lemma ElementGoes(g: Grammar, args: seq<string>, i: nat, n: nat)
    requires g.Permuting() && i < n <= |args| && !IsNonOption(args[i]) && args[i] != "--"
    requires OptionOutcome(g, args, i, args[i][1..]).next == n
    ensures var o := OptionOutcome(g, args, i, args[i][1..]); Goes(g, args, i, "", n, [(o.ch, o.optarg)], true)
  {
    OptionGoes(g, args, i, args[i][1..], OptionOutcome(g, args, i, args[i][1..]));
  }

  lemma LongOutcomeIs(g: Grammar, args: seq<string>, i: nat, place: string, text: string, item: Item)
    requires g.Permuting() && item.Long? && Spellable(g, item) && i < |args| && place == "-" + text && place[1..] == text
    requires var eq := Find(text, '=');
             text[..eq] == item.key && (if eq < |text| then item.value == Joined(text[eq + 1..]) else !item.value.Joined?)
    requires item.value.Apart? ==> i + 1 < |args| && args[i + 1] == item.value.text
    ensures var o := OptionOutcome(g, args, i, place);
            o.next == i + |Spelling(item)| && [(o.ch, o.optarg)] == Meaning(g, item)
  {}

  lemma OperandGoes(g: Grammar, args: seq<string>, i: nat, item: Item)
    requires g.Permuting() && item.Operand? && Spellable(g, item) && Has(args, i, Spelling(item))
    ensures Goes(g, args, i, "", i + |Spelling(item)|, Meaning(g, item), false)
  {
    assert args[i] == args[i..i + 1][0];
    assert IsNonOption(args[i]) && args[i] != "--";
    assert Repeat(false, 1) == [false];
  }

  lemma ItemGoes(g: Grammar, args: seq<string>, i: nat, item: Item)
    requires g.Permuting() && Spellable(g, item) && Has(args, i, Spelling(item))
    ensures Goes(g, args, i, "", i + |Spelling(item)|, Meaning(g, item), !item.Operand?)
  {
    match item
    case Operand(_) => OperandGoes(g, args, i, item);
    case Letters(_, _, _) => LettersGo(g, args, i, item);
    case Long(_, _, _) => LongGo(g, args, i, item);
  }

  // ---- A whole vector ----

  /** Nothing, or the two dashes that end the options and what follows them. */
  predicate Ending(tail: seq<string>) {
    tail == [] || tail[0] == "--"
  }

  /** The words that come first in the end: options, their arguments and the
      two dashes. */
  function Leading(items: seq<Item>, tail: seq<string>): seq<string> {
    Words(items, true) + if tail == [] then [] else tail[..1]
  }

  function Trailing(items: seq<Item>, tail: seq<string>): seq<string> {
    Words(items, false) + if tail == [] then [] else tail[1..]
  }

  /** From `i` on the scan reports what the items mean, and its marks sort
      their words. */
  ghost predicate Understood(g: Grammar, args: seq<string>, i: nat, items: seq<Item>, tail: seq<string>)
    requires g.Permuting() && i <= |args|
  {
    && Seen(Outcomes(g, args, i, "")) == MeaningAll(g, items)
    && Select(args[i..], Marks(g, args, i, ""), true) == Leading(items, tail)
    && Select(args[i..], Marks(g, args, i, ""), false) == Trailing(items, tail)
  }

  /** From `i` on the vector spells the items, and the tail follows. */
  ghost predicate Spelled(g: Grammar, args: seq<string>, i: nat, items: seq<Item>, tail: seq<string>) {
    i <= |args| && args[i..] == SpellAll(items) + tail && AllSpellable(g, items)
  }

  lemma EndUnderstood(g: Grammar, args: seq<string>, i: nat, items: seq<Item>, tail: seq<string>)
    requires g.Permuting() && items == [] && Spelled(g, args, i, items, tail) && Ending(tail)
    ensures Understood(g, args, i, items, tail)
  {
    assert args[i..] == tail;
    if tail != [] {
      assert args[i] == tail[0];
      var rest := tail[1..];
      SelectRepeat(rest, false, true);
      SelectRepeat(rest, false, false);
      assert ([true] + Repeat(false, |rest|))[1..] == Repeat(false, |rest|);
      assert tail[..1] == [tail[0]];
    }
  }

  lemma {:induction false} VectorUnderstood(g: Grammar, args: seq<string>, i: nat, items: seq<Item>, tail: seq<string>)
    requires g.Permuting() && Spelled(g, args, i, items, tail) && Ending(tail)
    ensures Understood(g, args, i, items, tail)
    decreases |items|
  {
    if items == [] {
      EndUnderstood(g, args, i, items, tail);
    } else {
      var n := i + |Spelling(items[0])|;
      FirstSpelled(g, args, i, items, tail);
      VectorUnderstood(g, args, n, items[1..], tail);
      ItemUnderstood(g, args, i, n, items, tail);
    }
  }

  lemma FirstSpelled(g: Grammar, args: seq<string>, i: nat, items: seq<Item>, tail: seq<string>)
    requires items != [] && Spelled(g, args, i, items, tail)
    ensures Has(args, i, Spelling(items[0])) && Spellable(g, items[0])
    ensures Spelled(g, args, i + |Spelling(items[0])|, items[1..], tail)
  {
    Regroup(Spelling(items[0]), SpellAll(items[1..]), tail);
    SplitsAt(args, i, Spelling(items[0]), SpellAll(items[1..]) + tail);
  }

  lemma SplitsAt(args: seq<string>, i: nat, words: seq<string>, rest: seq<string>)
    requires i <= |args| && args[i..] == words + rest
    ensures Has(args, i, words) && args[i + |words|..] == rest
  {
    assert args == args[..i] + words + rest by { assert args == args[..i] + args[i..]; }
  }

  lemma ItemUnderstood(g: Grammar, args: seq<string>, i: nat, n: nat, items: seq<Item>, tail: seq<string>)
    requires g.Permuting() && items != [] && Spelled(g, args, i, items, tail)
    requires n == i + |Spelling(items[0])| <= |args| && Understood(g, args, n, items[1..], tail)
    ensures Understood(g, args, i, items, tail)
  {
    var words, mark := Spelling(items[0]), !items[0].Operand?;
    FirstSpelled(g, args, i, items, tail);
    ItemGoes(g, args, i, items[0]);
    SelectedOn(args, i, n, words, mark, Marks(g, args, n, ""), true);
    SelectedOn(args, i, n, words, mark, Marks(g, args, n, ""), false);
    Regroup(if mark then words else [], Words(items[1..], true), if tail == [] then [] else tail[..1]);
    Regroup(if mark then [] else words, Words(items[1..], false), if tail == [] then [] else tail[1..]);
  }

  lemma SelectedOn(args: seq<string>, i: nat, n: nat, words: seq<string>, mark: bool, marks: seq<bool>, b: bool)
    requires n == i + |words| && Has(args, i, words) && |marks| == |args| - n
    ensures Select(args[i..], Repeat(mark, n - i) + marks, b) == (if mark == b then words else []) + Select(args[n..], marks, b)
  {
    assert args[i..] == words + args[n..];
    SelectAppend(words, Repeat(mark, |words|), args[n..], marks, b);
    SelectRepeat(words, mark, b);
  }

  lemma Regroup(a: seq<string>, b: seq<string>, c: seq<string>)
    ensures a + b + c == a + (b + c)
  {}

  /** A scan of a well-spelled vector reports what its items mean, in their
      order, and leaves all words of options first, arguments behind their
      options, then the operands, with `optind` between them. */
  method ScanSpelled(scanner: Scanner, ghost items: seq<Item>, ghost tail: seq<string>) returns (options: seq<(int, Option<string>)>)
    requires scanner.Valid() && scanner.optind == scanner.base && scanner.place == "" && scanner.done == []
    requires Spelled(scanner.g, scanner.args, scanner.base, items, tail) && Ending(tail)
    modifies scanner, scanner.argv
    ensures options == MeaningAll(scanner.g, items)
    ensures scanner.argv[..] == scanner.args[..scanner.base] + Leading(items, tail) + Trailing(items, tail)
    ensures scanner.optind == scanner.base + |Leading(items, tail)|
  {
    VectorUnderstood(scanner.g, scanner.args, scanner.base, items, tail);
    options := ScanAll(scanner);
  }
}
