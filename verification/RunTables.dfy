/** Run-length tables: the stts and ctts boxes of sections 8.6.1.2 and 8.6.1.3
    of ISO/IEC 14496-12, and the integers they are made of. */
module RunTables {

  datatype Run = Run(count: nat, value: int)

  const TWO32: int := 0x1_0000_0000
  const INT_MIN: int := -0x8000_0000

  /** The 32-bit value a number is stored as, unsigned and signed. */
  function Uint32(x: int): int {
    x % TWO32
  }

  function Int32(x: int): int {
    (x - INT_MIN) % TWO32 + INT_MIN
  }

  /** The signed value is the unsigned one, less 2^32 for the upper half. */
  lemma SignedWord(x: int)
    ensures Int32(x) == if Uint32(x) < -INT_MIN then Uint32(x) else Uint32(x) - TWO32
  {
    var q := x / TWO32;
    assert x == TWO32 * q + Uint32(x);
    if Uint32(x) < -INT_MIN {
      assert (x - INT_MIN) / TWO32 == q;
    } else {
      assert (x - INT_MIN) / TWO32 == q + 1;
    }
  }

  /** The signed values of two numbers agree exactly when the unsigned ones do. */
  lemma SameWord(x: int, y: int)
    ensures Int32(x) == Int32(y) <==> Uint32(x) == Uint32(y)
  {
    SignedWord(x);
    SignedWord(y);
  }

  lemma WordIdentity(x: int)
    ensures Uint32(x) == x <==> 0 <= x < TWO32
    ensures Int32(x) == x <==> INT_MIN <= x < INT_MIN + TWO32
  {}

  /** Storing a signed value as an unsigned one loses nothing. */
  lemma StoredWord(x: int)
    ensures Uint32(Int32(x)) == Uint32(x) && Int32(Int32(x)) == Int32(x)
  {
    SignedWord(x);
  }

  function Copies(value: int, count: nat): (vs: seq<int>)
    ensures |vs| == count && forall i :: 0 <= i < count ==> vs[i] == value
  {
    seq(count, _ => value)
  }

  lemma CopiesNext(front: seq<int>, value: int, count: nat)
    ensures front + Copies(value, 0) == front
    ensures front + Copies(value, count) + [value] == front + Copies(value, count + 1)
  {}

  /** The values a table stands for, one per sample. */
  function Expand(runs: seq<Run>): seq<int> {
    if runs == [] then []
    else Expand(runs[..|runs| - 1]) + Copies(runs[|runs| - 1].value, runs[|runs| - 1].count)
  }

  lemma ExpandSnoc(runs: seq<Run>, r: Run)
    ensures Expand(runs + [r]) == Expand(runs) + Copies(r.value, r.count)
  {
    assert (runs + [r])[..|runs|] == runs;
  }

  /** No empty run and no two adjacent runs that could be one. */
  predicate Canonical(runs: seq<Run>) {
    && (forall i :: 0 <= i < |runs| ==> runs[i].count > 0)
    && (forall i {:trigger Changes(runs, i)} :: 1 <= i < |runs| ==> Changes(runs, i))
  }

  predicate Changes(runs: seq<Run>, i: nat)
    requires 1 <= i < |runs|
  {
    runs[i - 1].value != runs[i].value
  }

  /** One more sample with the last run's value. */
  lemma ExpandLonger(runs: seq<Run>)
    requires runs != []
    ensures var last := runs[|runs| - 1];
            Expand(runs[|runs| - 1 := last.(count := last.count + 1)]) == Expand(runs) + [last.value]
  {
    var m := |runs| - 1;
    var last := runs[m];
    var longer := runs[m := last.(count := last.count + 1)];
    assert longer[..m] == runs[..m];
    assert Copies(last.value, last.count + 1) == Copies(last.value, last.count) + [last.value];
  }

  /** The values of a table end with a copy of its last run. */
  lemma LastRun(runs: seq<Run>) returns (front: seq<Run>, last: Run)
    requires runs != []
    ensures last == runs[|runs| - 1] && front == runs[..|runs| - 1] && runs == front + [last]
    ensures var k := |Expand(runs)| - last.count;
            k >= 0 && Expand(front) == Expand(runs)[..k]
            && forall i :: k <= i < |Expand(runs)| ==> Expand(runs)[i] == last.value
  {
    last, front := runs[|runs| - 1], runs[..|runs| - 1];
  }

  /** Dropping the last run, or part of it, keeps a table canonical. */
  lemma CanonicalPrefix(front: seq<Run>, last: Run, count: nat)
    requires Canonical(front + [last]) && count > 0
    ensures Canonical(front) && Canonical(front + [Run(count, last.value)])
    ensures front != [] ==> front[|front| - 1].value != last.value && front[|front| - 1].count > 0
  {
    var runs, other := front + [last], front + [Run(count, last.value)];
    assert forall i :: 0 <= i < |front| ==> runs[i] == front[i] == other[i];
    assert runs[|front|] == last && other[|front|].value == last.value;
    assert forall i :: 1 <= i < |front| ==> Changes(front, i) == Changes(runs, i);
    assert forall i :: 1 <= i < |runs| ==> Changes(other, i) == Changes(runs, i);
    assert front != [] ==> Changes(runs, |front|);
  }

  /** No table of the same values ends with a longer run. */
  lemma LastRunIsLongest(values: seq<int>, front: seq<Run>, last: Run, last': Run)
    requires Canonical(front + [last]) && 0 < last.count <= |values| && last'.count <= |values|
    requires Expand(front) == values[..|values| - last.count] && values[|values| - 1] == last.value
    requires forall i :: |values| - last'.count <= i < |values| ==> values[i] == last'.value
    ensures last'.count <= last.count
  {
    CanonicalPrefix(front, last, 1);
    if front != [] {
      var _, last'' := LastRun(front);
      var k := |values| - last.count - 1;
      assert values[k] == Expand(front)[k] == last''.value != last.value;
    }
  }

  /** A table without redundancy is the unique shortest table of its values. */
  lemma {:induction false} CanonicalIsShortest(runs: seq<Run>, other: seq<Run>)
    requires Canonical(runs) && Expand(runs) == Expand(other)
    ensures |runs| <= |other|
    ensures |runs| == |other| ==> runs == other
    decreases |other|, 1
  {
    if runs == [] {
      return;
    }
    var values := Expand(runs);
    var front, last := LastRun(runs);
    assert values[|values| - 1] == last.value && other != [];
    var front', last' := LastRun(other);
    CanonicalPrefix(front, last, 1);
    LastRunIsLongest(values, front, last, last');
    if last'.count == 0 {
      CanonicalIsShortest(runs, front');
    } else if last'.count == last.count {
      CanonicalIsShortest(front, front');
    } else if last'.count < last.count {
      TrimRun(values, front, last, front', last');
    }
  }

  /** The case of a shorter last run in the other table. */
  lemma {:induction false} TrimRun(values: seq<int>, front: seq<Run>, last: Run, front': seq<Run>, last': Run)
    requires Canonical(front + [last]) && 0 < last'.count < last.count
    requires last.count <= |values| && Expand(front) == values[..|values| - last.count]
    requires forall i :: |values| - last.count <= i < |values| ==> values[i] == last.value
    requires Expand(front') == values[..|values| - last'.count]
    ensures |front| + 1 <= |front'|
    decreases |front'|, 2
  {
    var rest := Run(last.count - last'.count, last.value);
    CanonicalPrefix(front, last, rest.count);
    ExpandSnoc(front, rest);
    assert Expand(front + [rest]) == Expand(front');
    CanonicalIsShortest(front + [rest], front');
  }

  /** Differences between neighbours, and their inverse from 0. */
  function Deltas(ts: seq<int>): (ds: seq<int>)
    requires ts != []
    ensures |ds| == |ts| - 1
    ensures forall i :: 0 <= i < |ds| ==> ds[i] == ts[i + 1] - ts[i]
  {
    seq(|ts| - 1, i requires 0 <= i < |ts| - 1 => ts[i + 1] - ts[i])
  }

  function Sums(ds: seq<int>): (ts: seq<int>)
    ensures |ts| == |ds| + 1 && ts[0] == 0
  {
    if ds == [] then [0]
    else
      var front := Sums(ds[..|ds| - 1]);
      front + [front[|ds| - 1] + ds[|ds| - 1]]
  }

  lemma {:induction false} SumsStep(ds: seq<int>, i: nat)
    requires i < |ds|
    ensures Sums(ds)[i + 1] == Sums(ds)[i] + ds[i]
  {
    if i < |ds| - 1 { SumsStep(ds[..|ds| - 1], i); }
  }

  lemma {:induction false} SumsSnoc(ds: seq<int>, x: int)
    ensures Sums(ds + [x]) == Sums(ds) + [Sums(ds)[|ds|] + x]
  {
    var longer := ds + [x];
    var m := |longer| - 1;
    assert longer[..m] == ds && longer[m] == x;
  }

  /** One more value: it opens a run unless it continues the last, and is
      counted in the last run. */
  lemma CountNext(runs: seq<Run>, v: int)
    requires Canonical(runs)
    ensures var begun := if EndsWith(runs, v) then runs else runs + [Run(0, v)];
            var m := |begun| - 1;
            var counted := begun[m := begun[m].(count := begun[m].count + 1)];
            && Canonical(counted) && Expand(counted) == Expand(runs) + [v] && EndsWith(counted, v)
  {
    var begun := if EndsWith(runs, v) then runs else runs + [Run(0, v)];
    if begun != runs {
      ExpandSnoc(runs, Run(0, v));
      assert Expand(runs) + Copies(v, 0) == Expand(runs);
    }
    ExpandLonger(begun);
    var m := |begun| - 1;
    var counted := begun[m := begun[m].(count := begun[m].count + 1)];
    assert forall i :: 1 <= i < |runs| ==> Changes(counted, i) == Changes(runs, i);
    assert begun != runs && runs != [] ==> Changes(counted, |runs|);
  }

  lemma WordsNext(xs: seq<int>, i: nat)
    requires i < |xs|
    ensures Words(xs[..i + 1]) == Words(xs[..i]) + [Uint32(xs[i])]
    ensures SignedWords(xs[..i + 1]) == SignedWords(xs[..i]) + [Int32(xs[i])]
    ensures xs[..|xs|] == xs && xs[..0] == []
  {}

  lemma {:induction false} ExpandPrefix(runs: seq<Run>, i: nat)
    requires i <= |runs|
    ensures Expand(runs[..i]) <= Expand(runs)
    decreases |runs|
  {
    if i == |runs| {
      assert runs[..i] == runs;
    } else {
      var m := |runs| - 1;
      ExpandPrefix(runs[..m], i);
      assert runs[..m][..i] == runs[..i];
    }
  }

  /** The next run of a table being expanded. */
  lemma {:induction false} ExpandNext(runs: seq<Run>, i: nat)
    requires i < |runs|
    ensures Expand(runs[..i + 1]) == Expand(runs[..i]) + Copies(runs[i].value, runs[i].count)
    ensures Expand(runs[..i + 1]) <= Expand(runs)
  {
    var longer := runs[..i + 1];
    assert longer == runs[..i] + [runs[i]];
    ExpandSnoc(runs[..i], runs[i]);
    assert Expand(longer) <= Expand(runs) by { ExpandPrefix(runs, i + 1); }
  }

  predicate EndsWith(runs: seq<Run>, v: int) {
    runs != [] && runs[|runs| - 1].value == v
  }

  function Words(xs: seq<int>): (ws: seq<int>)
    ensures |ws| == |xs| && forall i :: 0 <= i < |xs| ==> ws[i] == Uint32(xs[i])
  {
    seq(|xs|, i requires 0 <= i < |xs| => Uint32(xs[i]))
  }

  function SignedWords(xs: seq<int>): (ws: seq<int>)
    ensures |ws| == |xs| && forall i :: 0 <= i < |xs| ==> ws[i] == Int32(xs[i])
  {
    seq(|xs|, i requires 0 <= i < |xs| => Int32(xs[i]))
  }

  /** Two timelines from 0 with the same differences are the same. */
  lemma {:induction false} SumsUnique(ts: seq<int>, ds: seq<int>)
    requires |ts| == |ds| + 1 && ts[0] == 0
    requires forall i :: 0 <= i < |ds| ==> ts[i + 1] == ts[i] + ds[i]
    ensures ts == Sums(ds)
  {
    if ds != [] {
      var m := |ds| - 1;
      SumsUnique(ts[..m + 1], ds[..m]);
    }
  }

  /** Differences that fit 32 bits are stored as they are. */
  lemma WordsExactIff(ds: seq<int>)
    ensures Words(ds) == ds <==> forall i :: 0 <= i < |ds| ==> 0 <= ds[i] < TWO32
  {
    forall i | 0 <= i < |ds|
      ensures Words(ds)[i] == ds[i] <==> 0 <= ds[i] < TWO32
    {
      WordIdentity(ds[i]);
    }
    if Words(ds) == ds {
      assert forall i :: 0 <= i < |ds| ==> Words(ds)[i] == ds[i];
    }
  }

  lemma SumsInjective(ds: seq<int>, es: seq<int>)
    requires |ds| == |es| && Sums(ds) == Sums(es)
    ensures ds == es
  {
    forall i | 0 <= i < |ds|
      ensures ds[i] == es[i]
    {
      SumsStep(ds, i);
      SumsStep(es, i);
    }
  }

  /** Decoding times written as a table restores them, exactly when they
      start at 0 and no difference needs more than 32 bits. */
  lemma DecodeRoundTrip(ts: seq<int>, runs: seq<Run>)
    requires ts != [] && Expand(runs) == Words(Deltas(ts))
    ensures Sums(Expand(runs)) == ts
            <==> ts[0] == 0 && forall i :: 0 <= i < |ts| - 1 ==> 0 <= Deltas(ts)[i] < TWO32
  {
    var ds := Deltas(ts);
    WordsExactIff(ds);
    if ts[0] == 0 {
      SumsUnique(ts, ds);
      if Sums(Words(ds)) == ts {
        SumsInjective(Words(ds), ds);
      }
    }
  }
}
