/** Integer facts shared by the models: the Euclidean gcd with the Bezout
    coefficients behind it, least common multiples, and products and quotients
    taken one step at a time. */
module Numbers {

  lemma Distribute(a: int, b: int, c: int)
    ensures a * (b + c) == a * b + a * c
    ensures (b + c) * a == b * a + c * a
    ensures a * (b - c) == a * b - a * c
    ensures (b - c) * a == b * a - c * a
  {}

  lemma Associate(a: int, b: int, c: int)
    ensures a * b * c == a * (b * c) == b * (a * c) == c * (a * b)
  {}

  /** The recursive Euclidean algorithm of the timecode editor. */
  function Gcd(a: nat, b: nat): (g: nat)
    ensures g > 0 <==> a + b > 0
    decreases b
  {
    if b == 0 then a else Gcd(b, a % b)
  }

  /** The greatest common divisor is an integer combination of its arguments. */
  lemma {:induction false} Bezout(a: nat, b: nat) returns (u: int, v: int)
    ensures u * a + v * b == Gcd(a, b)
    decreases b
  {
    if b == 0 {
      u, v := 1, 0;
    } else {
      var q, r := a / b, a % b;
      var u', v' := Bezout(b, r);
      u, v := v', u' - q * v';
      assert a == q * b + r;
      calc {
        u * a + v * b;
        { Distribute(b, u', q * v'); }
        v' * (q * b + r) + u' * b - q * v' * b;
        { Distribute(v', q * b, r); Associate(v', q, b); Associate(q, v', b); }
        u' * b + v' * r;
      }
    }
  }

  /** The greatest common divisor divides its arguments. */
  lemma {:induction false} GcdDivides(a: nat, b: nat) returns (x: nat, y: nat)
    ensures a == Gcd(a, b) * x && b == Gcd(a, b) * y
    decreases b
  {
    if b == 0 {
      x, y := 1, 0;
    } else {
      var g, q := Gcd(a, b), a / b;
      var x', y' := GcdDivides(b, a % b);
      assert a == q * b + a % b;
      Associate(q, g, x');
      Distribute(g, q * x', y');
      NonNegative(q, x');
      x, y := q * x' + y', x';
    }
  }

  lemma NonNegative(a: int, b: int)
    requires a >= 0 && b >= 0
    ensures a * b >= 0
  {}

  /** Multiplying by a positive number is strictly monotone. */
  lemma MulStrict(d: int, a: int, b: int)
    requires d > 0
    ensures a < b ==> d * a + d <= d * b
    ensures a <= b ==> d * a <= d * b
  {
    Distribute(d, b, a);
    if a < b { Distribute(d, b - a - 1, 1); NonNegative(d, b - a - 1); }
  }

  /** Euclidean division has one quotient and one remainder. */
  lemma DivModUnique(n: int, d: int, q: int, r: int)
    requires d > 0 && 0 <= r < d
    requires n == d * q + r
    ensures n / d == q && n % d == r
  {
    var q' := n / d;
    assert n == d * q' + n % d;
    MulStrict(d, q, q');
    MulStrict(d, q', q);
  }

  function Lcm(a: nat, b: nat): nat
    requires a > 0
  {
    b * (a / Gcd(a, b))
  }

  predicate Divides(d: int, n: int)
    requires d != 0
  {
    n % d == 0
  }

  lemma MultipleDivides(d: int, q: int)
    requires d > 0
    ensures Divides(d, d * q) && (d * q) / d == q
  {
    DivModUnique(d * q, d, q, 0);
  }

  lemma QuotientNatural(n: nat, d: nat)
    requires d > 0
    ensures n / d >= 0
  {
    MulStrict(d, n / d, 0);
  }

  function Pow10(k: nat): (p: nat)
    ensures p > 0
  {
    if k == 0 then 1 else 10 * Pow10(k - 1)
  }

  /** A multiple of `d` strictly between `-d` and `d` is zero. */
  lemma SmallMultiple(d: int, q: int)
    requires -d < d * q < d
    ensures q == 0
  {
    MulStrict(d, 0, q);
    MulStrict(d, q, 0);
  }

  /** Numbers in one residue class differ by a multiple of the modulus. */
  lemma ClassQuotient(a: int, b: int, d: int) returns (q: int)
    requires d > 0 && a % d == b % d
    ensures a == b + d * q
  {
    q := a / d - b / d;
    Distribute(d, a / d, b / d);
  }

  /** Adding a multiple of the modulus stays in the residue class. */
  lemma ShiftClass(a: int, b: int, d: int, q: int)
    requires d > 0 && a == b + d * q
    ensures a % d == b % d
  {
    Distribute(d, b / d, q);
    DivModUnique(a, d, b / d + q, b % d);
  }
}
