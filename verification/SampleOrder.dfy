/** Samples in decoding order, and the index that lists them in composition
    order (`m_ctsIndex` in src/mp4trackx.h). */
module SampleOrder {
  import opened TimeBend

  datatype SampleTime = SampleTime(dts: int, cts: int)

  ghost predicate IsPermutation(idx: seq<nat>, n: nat) {
    && |idx| == n
    && (forall i :: 0 <= i < n ==> idx[i] < n)
    && (forall i, j :: 0 <= i < j < n ==> idx[i] != idx[j])
  }

  /** Decoding times in decoding order. */
  function DtsOf(st: seq<SampleTime>): (ts: seq<int>)
    ensures |ts| == |st| && forall i :: 0 <= i < |st| ==> ts[i] == st[i].dts
  {
    seq(|st|, i requires 0 <= i < |st| => st[i].dts)
  }

  /** Composition times in the order of an index. */
  ghost function CtsOf(st: seq<SampleTime>, idx: seq<nat>): (ts: seq<int>)
    requires forall i :: 0 <= i < |idx| ==> idx[i] < |st|
    ensures |ts| == |idx| && forall i :: 0 <= i < |idx| ==> ts[i] == st[idx[i]].cts
  {
    seq(|idx|, i requires 0 <= i < |idx| => st[idx[i]].cts)
  }

  predicate NonDecreasing(ts: seq<int>) {
    forall i, j :: 0 <= i < j < |ts| ==> ts[i] <= ts[j]
  }

  /** Changing one sample's composition time changes one entry. */
  lemma SetCts(st: seq<SampleTime>, idx: seq<nat>, n: nat, v: int)
    requires IsPermutation(idx, |st|) && n < |idx|
    ensures var st' := st[idx[n] := st[idx[n]].(cts := v)];
            DtsOf(st') == DtsOf(st) && CtsOf(st', idx) == CtsOf(st, idx)[n := v]
  {}

  lemma SetDts(st: seq<SampleTime>, idx: seq<nat>, n: nat, v: int)
    requires IsPermutation(idx, |st|) && n < |st|
    ensures var st' := st[n := st[n].(dts := v)];
            DtsOf(st') == DtsOf(st)[n := v] && CtsOf(st', idx) == CtsOf(st, idx)
  {}

  function Below(n: nat): (s: set<nat>)
    ensures |s| == n && forall x: nat :: x in s <==> x < n
  {
    if n == 0 then {} else Below(n - 1) + {n - 1}
  }

  function Values(idx: seq<nat>): (s: set<nat>)
    ensures forall i :: 0 <= i < |idx| ==> idx[i] in s
    ensures forall x :: x in s ==> x in idx
  {
    if idx == [] then {} else Values(idx[..|idx| - 1]) + {idx[|idx| - 1]}
  }

  lemma {:induction false} DistinctCount(idx: seq<nat>)
    requires forall i, j :: 0 <= i < j < |idx| ==> idx[i] != idx[j]
    ensures |Values(idx)| == |idx|
  {
    if idx != [] {
      DistinctCount(idx[..|idx| - 1]);
    }
  }

  /** A permutation reaches every sample. */
  lemma PermutationCovers(idx: seq<nat>, n: nat, x: nat) returns (i: nat)
    requires IsPermutation(idx, n) && x < n
    ensures i < n && idx[i] == x
  {
    DistinctCount(idx);
    var values, all := Values(idx), Below(n);
    assert values <= all;
    assert all == values + (all - values);
    assert |all - values| == 0;
    assert x in values;
    i :| 0 <= i < n && idx[i] == x;
  }

  /** A permutation sorted by composition time; `std::sort` promises no more. */
  method SortByCts(st: seq<SampleTime>) returns (idx: seq<nat>)
    ensures IsPermutation(idx, |st|) && NonDecreasing(CtsOf(st, idx))
  {
    idx := [];
    for n := 0 to |st|
      invariant IsPermutation(idx, n) && NonDecreasing(CtsOf(st, idx))
    {
      var p := n;
      while p > 0 && st[idx[p - 1]].cts > st[n].cts
        invariant 0 <= p <= n
        invariant forall k :: p <= k < n ==> st[idx[k]].cts > st[n].cts
      {
        p := p - 1;
      }
      Insert(st, idx, n, p);
      idx := InsertAt(idx, p, n);
    }
  }

  function InsertAt<T>(s: seq<T>, p: nat, x: T): (r: seq<T>)
    requires p <= |s|
    ensures |r| == |s| + 1 && r[p] == x
    ensures forall k :: 0 <= k < p ==> r[k] == s[k]
    ensures forall k :: p < k <= |s| ==> r[k] == s[k - 1]
  {
    s[..p] + [x] + s[p..]
  }

  lemma InsertSorted(ts: seq<int>, p: nat, x: int)
    requires NonDecreasing(ts) && p <= |ts|
    requires forall k :: p <= k < |ts| ==> ts[k] > x
    requires p > 0 ==> ts[p - 1] <= x
    ensures NonDecreasing(InsertAt(ts, p, x))
  {
    assert forall k :: 0 <= k < p ==> ts[k] <= x by {
      assert forall k :: 0 <= k < p - 1 ==> ts[k] <= ts[p - 1];
    }
  }

  lemma InsertPermutation(idx: seq<nat>, n: nat, p: nat)
    requires IsPermutation(idx, n) && p <= n
    ensures IsPermutation(InsertAt(idx, p, n), n + 1)
  {}

  lemma Insert(st: seq<SampleTime>, idx: seq<nat>, n: nat, p: nat)
    requires n < |st| && IsPermutation(idx, n) && NonDecreasing(CtsOf(st, idx)) && p <= n
    requires forall k :: p <= k < n ==> st[idx[k]].cts > st[n].cts
    requires p > 0 ==> st[idx[p - 1]].cts <= st[n].cts
    ensures IsPermutation(InsertAt(idx, p, n), n + 1)
    ensures NonDecreasing(CtsOf(st, InsertAt(idx, p, n)))
  {
    InsertPermutation(idx, n, p);
    InsertSorted(CtsOf(st, idx), p, st[n].cts);
    assert CtsOf(st, InsertAt(idx, p, n)) == InsertAt(CtsOf(st, idx), p, st[n].cts);
  }

  /** A sample that composes after all others comes last in every sorted order. */
  lemma LatestIsLast(st: seq<SampleTime>, idx: seq<nat>)
    requires st != [] && IsPermutation(idx, |st|) && NonDecreasing(CtsOf(st, idx))
    requires forall i :: 0 <= i < |st| - 1 ==> st[i].cts < st[|st| - 1].cts
    ensures idx[|st| - 1] == |st| - 1
  {
    var m := |st| - 1;
    var k := PermutationCovers(idx, |st|, m);
    var ts := CtsOf(st, idx);
    assert k < m ==> ts[k] <= ts[m];
  }

  /** Increasing positions below `n` are the identity. */
  lemma {:induction false} IncreasingIsIdentity(f: seq<nat>, n: nat)
    requires |f| == n && (forall i :: 0 <= i < n ==> f[i] < n) && forall i, j :: 0 <= i < j < n ==> f[i] < f[j]
    ensures forall i :: 0 <= i < n ==> f[i] == i
  {
    if n > 0 {
      assert forall i :: 0 <= i < n - 1 ==> f[i] < f[n - 1] <= n - 1;
      IncreasingIsIdentity(f[..n - 1], n - 1);
      assert forall i :: 0 <= i < n - 1 ==> f[i] == f[..n - 1][i];
      if n > 1 { assert f[n - 2] == n - 2; }
    }
  }

  /** Once composition times strictly increase along an index, sorting by them
      gives that index again. */
  lemma SortIsUnique(st: seq<SampleTime>, idx: seq<nat>, other: seq<nat>)
    requires IsPermutation(idx, |st|) && StrictlyIncreasing(CtsOf(st, idx))
    requires IsPermutation(other, |st|) && NonDecreasing(CtsOf(st, other))
    ensures other == idx
  {
    var n := |st|;
    var f := Positions(idx, other, n);
    var ts, us := CtsOf(st, idx), CtsOf(st, other);
    forall i, j | 0 <= i < j < n
      ensures f[i] < f[j]
    {
      assert us[i] == ts[f[i]] && us[j] == ts[f[j]];
      assert f[i] != f[j];
    }
    IncreasingIsIdentity(f, n);
  }

  lemma {:induction false} PositionsUpTo(idx: seq<nat>, other: seq<nat>, n: nat, m: nat) returns (f: seq<nat>)
    requires IsPermutation(idx, n) && IsPermutation(other, n) && m <= n
    ensures |f| == m && forall i :: 0 <= i < m ==> f[i] < n && idx[f[i]] == other[i]
  {
    if m == 0 {
      f := [];
    } else {
      f := PositionsUpTo(idx, other, n, m - 1);
      var p := PermutationCovers(idx, n, other[m - 1]);
      f := f + [p];
    }
  }

  /** Where the entries of one permutation stand in another. */
  lemma Positions(idx: seq<nat>, other: seq<nat>, n: nat) returns (f: seq<nat>)
    requires IsPermutation(idx, n) && IsPermutation(other, n)
    ensures |f| == n && forall i :: 0 <= i < n ==> f[i] < n && idx[f[i]] == other[i]
  {
    f := PositionsUpTo(idx, other, n, n);
  }
}
