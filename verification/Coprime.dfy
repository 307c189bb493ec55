/** A prime stride visits different residues until it has gone round completely. */
module Coprime {
  import opened WichmannHill

  ghost predicate Divides(d: nat, n: int)
    requires d > 0
  {
    n % d == 0
  }

  ghost predicate IsPrime(p: nat) {
    p > 1 && forall d: nat | 1 < d < p :: !Divides(d, p)
  }

  function Gcd(a: nat, b: nat): (g: nat)
    requires a > 0 || b > 0
    ensures g > 0
    decreases b
  {
    if b == 0 then a else Gcd(b, a % b)
  }

  lemma ModMultiple(n: int, d: nat, q: int)
    requires d > 0 && n == q * d
    ensures Divides(d, n)
  {
    ModUnique(n, d, q, 0);
  }

  lemma DividesSum(d: nat, x: int, y: int, k: int)
    requires d > 0 && Divides(d, x) && Divides(d, y)
    ensures Divides(d, x + k * y)
  {
    var p, q := x / d, y / d;
    assert x == p * d && y == q * d;
    assert x + k * y == (p + k * q) * d;
    ModMultiple(x + k * y, d, p + k * q);
  }

  lemma {:induction false} GcdDivides(a: nat, b: nat)
    requires a > 0 || b > 0
    ensures Divides(Gcd(a, b), a) && Divides(Gcd(a, b), b)
    decreases b
  {
    if b == 0 {
      ModMultiple(a, a, 1);
    } else {
      GcdDivides(b, a % b);
      DividesSum(Gcd(a, b), a % b, b, a / b);
      assert a % b + (a / b) * b == a;
    }
  }

  lemma Bezout(a: nat, b: nat) returns (x: int, y: int)
    requires a > 0 || b > 0
    ensures x * a + y * b == Gcd(a, b)
    decreases b
  {
    if b == 0 {
      x, y := 1, 0;
    } else {
      var u, v := Bezout(b, a % b);
      x, y := v, u - (a / b) * v;
      BezoutStep(a, b, u, v, a / b, a % b);
    }
  }

  lemma BezoutStep(a: int, b: int, u: int, v: int, q: int, r: int)
    requires a == q * b + r
    ensures v * a + (u - q * v) * b == u * b + v * r
  {
    assert v * a == v * (q * b) + v * r;
    assert (q * v) * b == v * (q * b);
    assert (u - q * v) * b == u * b - (q * v) * b;
  }

  lemma {:induction false} PrimeGcd(p: nat, m: nat)
    requires IsPrime(p) && 0 < m < p
    ensures Gcd(p, m) == 1
  {
    GcdDivides(p, m);
    var g := Gcd(p, m);
    assert m == (m / g) * g;
    assert g <= m by { DivisorAtMost(g, m / g, m); }
  }

  lemma DivisorAtMost(g: nat, q: int, m: nat)
    requires g > 0 && m > 0 && m == q * g
    ensures g <= m
  {
    assert q <= 0 ==> q * g <= 0;
    assert q >= 1 ==> q * g >= g;
  }

  /** A multiple of a prime is a multiple of a smaller number only if the factor is. */
  lemma PrimeMultiple(p: nat, m: nat, d: int)
    requires IsPrime(p) && 0 < m < p && Divides(m, d * p)
    ensures Divides(m, d)
  {
    PrimeGcd(p, m);
    var x, y := Bezout(p, m);
    Expand(x, y, p, m, d);
    ModMultiple((y * d) * m, m, y * d);
    DividesSum(m, (y * d) * m, d * p, x);
  }

  lemma Expand(x: int, y: int, p: int, m: int, d: int)
    requires x * p + y * m == 1
    ensures d == (y * d) * m + x * (d * p)
  {
    assert d * (x * p + y * m) == d;
    assert d * (x * p) == x * (d * p) && d * (y * m) == (y * d) * m;
  }

  lemma SmallMultiple(m: nat, d: int)
    requires 0 < d < m
    ensures !Divides(m, d)
  {
  }

  /** The truncated remainder is congruent to its argument. */
  lemma TruncCongruent(a: int, m: nat)
    requires m > 0
    ensures Divides(m, a - TruncMod(a, m))
  {
    if a >= 0 {
      assert a - a % m == (a / m) * m;
      ModMultiple(a - TruncMod(a, m), m, a / m);
    } else {
      var c := -a;
      assert c == (c / m) * m + c % m;
      assert a - TruncMod(a, m) == (-(c / m)) * m;
      ModMultiple(a - TruncMod(a, m), m, -(c / m));
    }
  }

  /** Steps of a prime larger than m, fewer than m of them, never return to the same remainder, from any start. */
  lemma StridesDiffer(start: int, p: nat, m: nat, i: nat, j: nat)
    requires IsPrime(p) && 0 < m < p && i < j < m
    ensures TruncMod(start + i * p, m) != TruncMod(start + j * p, m)
  {
    var a, b := start + i * p, start + j * p;
    TruncCongruent(a, m);
    TruncCongruent(b, m);
    if TruncMod(a, m) == TruncMod(b, m) {
      var r := TruncMod(a, m);
      DividesSum(m, b - r, a - r, -1);
      assert (b - r) + -1 * (a - r) == (j - i) * p;
      PrimeMultiple(p, m, j - i);
      SmallMultiple(m, j - i);
      assert false;
    }
  }

  /** The truncated remainder lies in 0..m-1 exactly for sums that are not negative, or multiples of m. */
  lemma TruncInRange(a: int, m: nat)
    requires m > 0
    ensures 0 <= TruncMod(a, m) < m <==> a >= 0 || Divides(m, a)
  {
    if a < 0 { NegativeRemainder(a, m); }
  }
}
