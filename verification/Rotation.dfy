/** The block exchange of the argument scanner: two adjacent blocks of a vector
    trade places in situ, one gcd cycle at a time (src/getopt.c). */
module Rotation {
  import opened Numbers

  /** Where the element at offset `r` goes when blocks of `n` and `k` elements
      are exchanged. */
  function Hop(n: nat, k: nat, r: nat): (r': nat)
    requires r < n + k
    ensures r' < n + k
  {
    if r >= n then r - n else r + k
  }

  /** Offset reached from `c` after `t` hops. */
  function Orbit(n: nat, k: nat, c: nat, t: nat): (r: nat)
    requires c < n + k
    ensures r < n + k
  {
    if t == 0 then c else Hop(n, k, Orbit(n, k, c, t - 1))
  }

  /** A hop adds `k` modulo `n + k`; `q` counts the wrap-arounds. */
  lemma {:induction false} OrbitForm(n: nat, k: nat, c: nat, t: nat) returns (q: int)
    requires c < n + k
    ensures Orbit(n, k, c, t) == c + t * k - q * (n + k)
  {
    if t == 0 {
      q := 0;
    } else {
      q := OrbitForm(n, k, c, t - 1);
      assert t * k == (t - 1) * k + k;
      if Orbit(n, k, c, t - 1) >= n {
        assert (q + 1) * (n + k) == q * (n + k) + (n + k);
        q := q + 1;
      }
    }
  }

  /** Both block lengths divided by their gcd, with the Bezout coefficients of
      the reduced pair. */
  lemma Reduce(n: nat, k: nat) returns (g: nat, len: nat, k': nat, u: int, w: int)
    requires n > 0 && k > 0
    ensures g == Gcd(n, k) > 0 && len > 0
    ensures n + k == g * len && k == g * k'
    ensures u * len + w * k' == 1
  {
    g := Gcd(n, k);
    var n';
    n', k' := GcdDivides(n, k);
    var a, b := Bezout(n, k);
    len, u, w := n' + k', a, b - a;
    Distribute(g, n', k');
    calc {
      g * (u * len + w * k');
      { Distribute(g, u * len, w * k'); Associate(u, g, len); Associate(w, g, k'); }
      u * (g * len) + w * (g * k');
      { Distribute(a, n, k); Distribute(k, b, a); }
      a * n + b * k;
      g * 1;
    }
    Distribute(g, u * len + w * k', 1);
    SmallMultiple(g, u * len + w * k' - 1);
  }

  /** If `len` divides `d * k'` and is coprime to `k'`, it divides `d`. */
  lemma CoprimeMultiple(d: int, q: int, len: int, k': int, u: int, w: int)
    requires u * len + w * k' == 1
    requires d * k' == q * len
    ensures d == len * (d * u + w * q)
  {
    Distribute(d, u * len, w * k');
    Associate(d, u, len);
    Associate(d, w, k');
    Associate(w, q, len);
    Distribute(len, d * u, w * q);
  }

  /** Multiples of `k'` reach every residue modulo `len`: `z` is hit by
      `z * w` taken modulo `len`. */
  lemma SolveResidue(z: int, len: int, k': int, u: int, w: int) returns (p: int, t: int)
    requires len > 0 && u * len + w * k' == 1
    ensures 0 <= t < len && t * k' == z - len * p
  {
    var a := z * w / len;
    t := z * w % len;
    p := z * u + a * k';
    assert z * w == len * a + t;
    Distribute(k', len * a, t);
    Associate(len, a, k');
    Associate(z, w, k');
    Distribute(z, u * len, w * k');
    Associate(z, u, len);
    Distribute(len, z * u, a * k');
  }

  /** Before the orbit closes no offset repeats. */
  lemma OrbitInjective(n: nat, k: nat, c: nat, t1: nat, t2: nat)
    requires n > 0 && k > 0 && c < n + k
    requires t1 < t2 < (n + k) / Gcd(n, k)
    ensures Orbit(n, k, c, t1) != Orbit(n, k, c, t2)
  {
    var g, len, k', u, w := Reduce(n, k);
    MultipleDivides(g, len);
    var q1 := OrbitForm(n, k, c, t1);
    var q2 := OrbitForm(n, k, c, t2);
    if Orbit(n, k, c, t1) == Orbit(n, k, c, t2) {
      var d, q := t2 - t1, q2 - q1;
      assert d * k == q * (n + k) by { Distribute(k, t2, t1); Distribute(n + k, q2, q1); }
      assert d * k' == q * len by {
        Associate(d, g, k'); Associate(q, g, len);
        Distribute(g, d * k', q * len);
        SmallMultiple(g, d * k' - q * len);
      }
      CoprimeMultiple(d, q, len, k', u, w);
      SmallMultiple(len, d * u + w * q);
    }
  }

  /** The orbit closes after `(n + k) / gcd` hops. */
  lemma OrbitCloses(n: nat, k: nat, c: nat)
    requires n > 0 && k > 0 && c < n + k
    ensures Orbit(n, k, c, (n + k) / Gcd(n, k)) == c
  {
    var g, len, k', u, w := Reduce(n, k);
    MultipleDivides(g, len);
    var q := OrbitForm(n, k, c, len);
    Associate(len, g, k'); Associate(g, len, k');
    assert len * k == (n + k) * k';
    Distribute(n + k, k', q);
    SmallMultiple(n + k, k' - q);
  }

  /** An orbit stays in the residue class of its start modulo the gcd. */
  lemma OrbitClass(n: nat, k: nat, c: nat, t: nat)
    requires n > 0 && k > 0 && c < n + k
    ensures Orbit(n, k, c, t) % Gcd(n, k) == c % Gcd(n, k)
  {
    var g, len, k', u, w := Reduce(n, k);
    var q := OrbitForm(n, k, c, t);
    Associate(t, g, k'); Associate(q, g, len); Distribute(g, t * k', q * len);
    ShiftClass(Orbit(n, k, c, t), c, g, t * k' - q * len);
  }

  /** An orbit covers the whole residue class of its start modulo the gcd. */
  lemma OrbitCovers(n: nat, k: nat, c: nat, r: nat) returns (t: nat)
    requires n > 0 && k > 0 && c < n + k && r < n + k
    requires r % Gcd(n, k) == c % Gcd(n, k)
    ensures t < (n + k) / Gcd(n, k) && Orbit(n, k, c, t) == r
  {
    var g, len, k', u, w := Reduce(n, k);
    MultipleDivides(g, len);
    var z := ClassQuotient(r, c, g);
    var p;
    p, t := SolveResidue(z, len, k', u, w);
    var q := OrbitForm(n, k, c, t);
    Associate(t, g, k');
    Associate(g, len, p);
    Distribute(g, z, len * p);
    Distribute(n + k, p, q);
    assert Orbit(n, k, c, t) - r == -((n + k) * (p + q));
    SmallMultiple(n + k, p + q);
  }

  /** What the block at `[start, end)` holds after its blocks `[start, mid)`
      and `[mid, end)` have traded places. */
  function Rotated<T>(s: seq<T>, start: nat, mid: nat, end: nat): seq<T>
    requires start <= mid <= end <= |s|
  {
    s[..start] + s[mid..end] + s[start..mid] + s[end..]
  }

  lemma OrbitDistinct(n: nat, k: nat, c: nat)
    requires n > 0 && k > 0 && c < n + k
    ensures forall t1, t2 :: 0 <= t1 < t2 < (n + k) / Gcd(n, k) ==> Orbit(n, k, c, t1) != Orbit(n, k, c, t2)
  {
    forall t1, t2 | 0 <= t1 < t2 < (n + k) / Gcd(n, k)
      ensures Orbit(n, k, c, t1) != Orbit(n, k, c, t2)
    {
      OrbitInjective(n, k, c, t1, t2);
    }
  }

  /** The `i`th cycle starts inside the second block, in residue class `i`. */
  lemma CycleStart(n: nat, k: nat, i: nat)
    requires n > 0 && k > 0 && i < Gcd(n, k)
    ensures i < k && (n + i) % Gcd(n, k) == i
    ensures 0 < (n + k) / Gcd(n, k)
  {
    var g, len, k', u, w := Reduce(n, k);
    MultipleDivides(g, len);
    MulStrict(g, 0, k');
    var x, y := GcdDivides(n, k);
    DivModUnique(n + i, g, x, i);
  }

  /** The place of the element at `p` once the blocks have traded places. */
  function Target(start: nat, mid: nat, end: nat, p: nat): nat
    requires start <= mid <= end && start <= p < end
  {
    start + Hop(mid - start, end - mid, p - start)
  }

  /** The residue class of a position relative to the blocks' start. */
  function Class(start: nat, g: nat, p: int): int
    requires g > 0
  {
    (p - start) % g
  }

  /** An element's target lies in its own residue class modulo the gcd. */
  lemma TargetClass(start: nat, mid: nat, end: nat, g: nat)
    requires start < mid < end && g == Gcd(mid - start, end - mid)
    ensures forall p :: start <= p < end ==> Class(start, g, Target(start, mid, end, p)) == Class(start, g, p)
  {
    forall p | start <= p < end
      ensures Class(start, g, Target(start, mid, end, p)) == Class(start, g, p)
    {
      var n, k, r := mid - start, end - mid, p - start;
      OrbitClass(n, k, r, 1);
      assert Orbit(n, k, r, 1) == Hop(n, k, Orbit(n, k, r, 0));
    }
  }

  /** Moving every element to its target and nothing else is the exchange. */
  lemma RotationSettled<T>(was: seq<T>, now: seq<T>, start: nat, mid: nat, end: nat)
    requires start < mid < end <= |was| == |now|
    requires forall p :: 0 <= p < |was| && !(start <= p < end) ==> now[p] == was[p]
    requires forall p :: start <= p < end ==> now[Target(start, mid, end, p)] == was[p]
    ensures now == Rotated(was, start, mid, end)
  {
    var n, k := mid - start, end - mid;
    forall p | 0 <= p < |was|
      ensures now[p] == Rotated(was, start, mid, end)[p]
    {
      if start <= p < start + k {
        assert Target(start, mid, end, p + n) == p;
      } else if start + k <= p < end {
        assert Target(start, mid, end, p - k) == p;
      }
    }
  }

  /** The scanner's iterative gcd computes the same number. */
  method IterativeGcd(a0: nat, b0: nat) returns (g: nat)
    requires b0 > 0
    ensures g == Gcd(a0, b0)
  {
    var a, b := a0, b0;
    var c := a % b;
    while c != 0
      invariant b > 0 && c == a % b
      invariant Gcd(a, b) == Gcd(a0, b0)
      decreases c
    {
      a := b;
      b := c;
      c := a % b;
    }
    return b;
  }

  /** The closed route of one cycle: every position is followed by the place
      where its element belongs, and no position repeats before the end. */
  ghost predicate Route(start: nat, mid: nat, end: nat, path: seq<nat>)
    requires start <= mid <= end
  {
    && |path| >= 2
    && path[0] == path[|path| - 1]
    && (forall t :: 0 <= t < |path| ==> start <= path[t] < end)
    && (forall t {:trigger Target(start, mid, end, path[t])} :: 0 <= t < |path| - 1
          ==> path[t + 1] == Target(start, mid, end, path[t]))
    && (forall t1, t2 :: 0 <= t1 < t2 < |path| - 1 ==> path[t1] != path[t2])
  }

  /** The route through residue class `i`: the orbit of its start. */
  function OrbitPath(start: nat, mid: nat, end: nat, i: nat, len: nat): (path: seq<nat>)
    requires start < mid && mid + i < end
    ensures |path| == len + 1
    ensures forall t :: 0 <= t <= len ==> path[t] == start + Orbit(mid - start, end - mid, mid - start + i, t)
  {
    seq(len + 1, t requires 0 <= t => start + Orbit(mid - start, end - mid, mid - start + i, t))
  }

  lemma OrbitPathIsRoute(start: nat, mid: nat, end: nat, i: nat, g: nat)
    requires start < mid < end && i < g == Gcd(mid - start, end - mid) && mid + i < end
    ensures Route(start, mid, end, OrbitPath(start, mid, end, i, (end - start) / g))
  {
    var n, k := mid - start, end - mid;
    CycleStart(n, k, i);
    OrbitCloses(n, k, n + i);
    OrbitDistinct(n, k, n + i);
  }

  /** The route through residue class `i` visits exactly that class. */
  lemma CycleRoute(start: nat, mid: nat, end: nat, i: nat, g: nat) returns (path: seq<nat>)
    requires start < mid < end && i < g == Gcd(mid - start, end - mid)
    ensures Route(start, mid, end, path) && path[0] == mid + i
    ensures |path| == (end - start) / g + 1
    ensures forall p :: start <= p < end ==> (p in path <==> Class(start, g, p) == i)
  {
    var n, k := mid - start, end - mid;
    CycleStart(n, k, i);
    var len := (end - start) / g;
    path := OrbitPath(start, mid, end, i, len);
    OrbitPathIsRoute(start, mid, end, i, g);
    forall p | start <= p < end
      ensures p in path <==> Class(start, g, p) == i
    {
      if Class(start, g, p) == i {
        var t := OrbitCovers(n, k, n + i, p - start);
        assert path[t] == p;
      } else if p in path {
        var t :| 0 <= t <= len && path[t] == p;
        OrbitClass(n, k, n + i, t);
      }
    }
  }

  /** One cycle of the exchange: the element parked at `cstart` is carried
      round the route, so that every element of the route moves one place
      along and nothing else moves. */
  method CarryCycle<T>(a: array<T>, start: nat, mid: nat, end: nat, cstart: nat, cyclelen: nat, ghost path: seq<nat>)
    requires start < mid < end <= a.Length
    requires Route(start, mid, end, path) && |path| == cyclelen + 1 && path[0] == cstart
    modifies a
    ensures forall p :: 0 <= p < a.Length && p !in path ==> a[p] == old(a[p])
    ensures forall p :: start <= p < end && p in path ==> a[Target(start, mid, end, p)] == old(a[p])
  {
    var nnonopts, nopts := mid - start, end - mid;
    var pos := cstart;
    for j := 0 to cyclelen
      invariant pos == path[j]
      invariant forall p :: 0 <= p < a.Length && p !in path ==> a[p] == old(a[p])
      invariant forall t {:trigger Target(start, mid, end, path[t])} :: 0 <= t < j && t + 1 < cyclelen
                  ==> a[Target(start, mid, end, path[t])] == old(a[path[t]])
      invariant forall t :: j < t < cyclelen ==> a[path[t]] == old(a[path[t]])
      invariant a[cstart] == old(a[path[if j < cyclelen then j else cyclelen - 1]])
    {
      ghost var next := Target(start, mid, end, path[j]);
      if pos >= mid {
        pos := pos - nnonopts;
      } else {
        pos := pos + nopts;
      }
      var swap := a[pos];
      a[pos] := a[cstart];
      a[cstart] := swap;
    }
    forall p | start <= p < end && p in path
      ensures a[Target(start, mid, end, p)] == old(a[p])
    {
      var t :| 0 <= t < |path| && path[t] == p;
      assert Target(start, mid, end, path[if t == cyclelen then 0 else t]) == Target(start, mid, end, p);
    }
  }

  /** Exchanges the block `[start, mid)` with the block `[mid, end)`. */
  method PermuteArgs<T>(a: array<T>, start: nat, mid: nat, end: nat)
    requires start < mid < end <= a.Length
    modifies a
    ensures a[..] == Rotated(old(a[..]), start, mid, end)
  {
    var nnonopts, nopts := mid - start, end - mid;
    var ncycle := IterativeGcd(nnonopts, nopts);
    var cyclelen := (end - start) / ncycle;
    for i := 0 to ncycle
      invariant forall p :: 0 <= p < a.Length && !(start <= p < end) ==> a[p] == old(a[p])
      invariant forall p :: start <= p < end && Class(start, ncycle, p) >= i ==> a[p] == old(a[p])
      invariant forall p :: start <= p < end && Class(start, ncycle, p) < i
                            ==> a[Target(start, mid, end, p)] == old(a[p])
    {
      ghost var path := CycleRoute(start, mid, end, i, ncycle);
      TargetClass(start, mid, end, ncycle);
      CarryCycle(a, start, mid, end, mid + i, cyclelen, path);
    }
    RotationSettled(old(a[..]), a[..], start, mid, end);
  }
}
