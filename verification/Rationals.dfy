/**
 Rational numbers as the arbitrary precision library stores them: they are never reduced as a whole, a
 product cancels crosswise only, and the difference from one cancels nothing.
 */
module Rationals {
  import opened Arithmetic
  import opened Coprime

  datatype Rational = Rational(num: int, den: int)

  function Whole(n: int): Rational { Rational(n, 1) }

  function Abs(n: int): nat { if n < 0 then -n else n }

  /** A product: each numerator is cancelled against the other's denominator. */
  function Multiplied(x: Rational, y: Rational): (r: Rational)
    requires x.den > 0 && y.den > 0
    ensures r.den > 0
  {
    if x.num == 0 || y.num == 0 then Whole(0)
    else
      var g, h := Gcd(Abs(x.num), y.den), Gcd(Abs(y.num), x.den);
      QuotientOfGcd(x.num, y.den);
      QuotientOfGcd(y.num, x.den);
      MulPositive(y.den / g, x.den / h);
      Rational((x.num / g) * (y.num / h), (y.den / g) * (x.den / h))
  }

  function FromOne(x: Rational): Rational { Rational(x.den - x.num, x.den) }

  lemma MulPositive(a: nat, b: nat)
    requires a > 0 && b > 0
    ensures a * b > 0
  {
    MulMonotone(1, a, b);
  }

  lemma QuotientOfGcd(n: int, d: nat)
    requires d > 0
    ensures var g := Gcd(Abs(n), d);
            d / g > 0 && (d / g) * g == d && (n / g) * g == n
  {
    var g := Gcd(Abs(n), d);
    GcdDivides(Abs(n), d);
    assert (d / g) * g == d;
    assert 0 * g == 0;
    assert (Abs(n) / g) * g == Abs(n);
    if n < 0 {
      assert n == (-(Abs(n) / g)) * g;
      ModMultiple(n, g, -(Abs(n) / g));
    }
  }

  /** How the product of a quotient with a whole number compares with one. */
  lemma ComparedWithOne(x: Rational, l: nat)
    requires x.den > 0 && x.num >= 0
    ensures var r := Multiplied(x, Whole(l));
            (r.num == r.den <==> l * x.num == x.den) && (r.num > r.den <==> l * x.num > x.den)
  {
    if x.num == 0 || l == 0 {
      assert l * x.num == 0;
    } else {
      var h := MultipliedByWhole(x, l);
      SwapFactors(x.num, l / h, h);
      CompareScaled(x.num * (l / h), x.den / h, h);
    }
  }

  lemma MultipliedByWhole(x: Rational, l: nat) returns (h: nat)
    requires x.den > 0 && x.num > 0 && l > 0
    ensures h > 0 && (l / h) * h == l && (x.den / h) * h == x.den
    ensures Multiplied(x, Whole(l)) == Rational(x.num * (l / h), x.den / h)
  {
    h := Gcd(l, x.den);
    QuotientOfGcd(x.num, 1);
    QuotientOfGcd(l, x.den);
    GcdOfOne(x.num);
  }

  lemma SwapFactors(a: int, b: int, c: int)
    ensures (a * b) * c == (b * c) * a
  {
  }

  lemma GcdOfOne(n: nat)
    requires n > 0
    ensures Gcd(n, 1) == 1
  {
    assert n % 1 == 0 && Gcd(1, 0) == 1;
  }

  lemma CompareScaled(a: int, b: int, h: nat)
    requires h > 0
    ensures (a == b <==> a * h == b * h) && (a > b <==> a * h > b * h)
  {
    if a > b { MulMonotone(b + 1, a, h); }
    if a < b { MulMonotone(a + 1, b, h); }
  }

  // ---- values ----

  function Value(r: Rational): real
    requires r.den > 0
  {
    r.num as real / r.den as real
  }

  lemma ValueScales(r: Rational)
    requires r.den > 0
    ensures Value(r) * r.den as real == r.num as real
  {
  }

  lemma ValueUnique(r: Rational, x: real)
    requires r.den > 0 && x * r.den as real == r.num as real
    ensures Value(r) == x
  {
    ValueScales(r);
    CancelReal(Value(r), x, r.den as real);
  }

  lemma FromOneValue(x: Rational)
    requires x.den > 0
    ensures Value(FromOne(x)) == 1.0 - Value(x)
  {
    ValueScales(x);
    assert (1.0 - Value(x)) * x.den as real == x.den as real - Value(x) * x.den as real;
    ValueUnique(FromOne(x), 1.0 - Value(x));
  }

  lemma WholeValue(n: int)
    ensures Value(Whole(n)) == n as real
  {
  }

  /** Cancelling keeps the value of the product. */
  lemma MultipliedValue(x: Rational, y: Rational)
    requires x.den > 0 && y.den > 0
    ensures Value(Multiplied(x, y)) == Times(Value(x), Value(y))
  {
    if x.num == 0 || y.num == 0 {
      if x.num == 0 { ZeroTimes(Value(y)); } else { TimesZero(Value(x)); }
    } else {
      var g, h := Gcd(Abs(x.num), y.den), Gcd(Abs(y.num), x.den);
      QuotientOfGcd(x.num, y.den);
      QuotientOfGcd(y.num, x.den);
      Crosswise(x, y, x.num / g, x.den / h, y.num / h, y.den / g, g, h);
    }
  }

  lemma Crosswise(x: Rational, y: Rational, a: int, b: nat, c: int, d: nat, g: nat, h: nat)
    requires x.den > 0 && y.den > 0 && b > 0 && d > 0 && g > 0 && h > 0
    requires x.num == a * g && x.den == b * h && y.num == c * h && y.den == d * g
    ensures d * b > 0 && Value(Rational(a * c, d * b)) == Times(Value(x), Value(y))
  {
    MulPositive(d, b);
    ScaledParts(x, a, g, b, h);
    ScaledParts(y, c, h, d, g);
    CastProduct(a, c);
    CastProduct(d, b);
    CancelCrosswise(Value(x), Value(y), a as real, b as real, c as real, d as real, g as real, h as real);
    ValueUnique(Rational(a * c, d * b), Times(Value(x), Value(y)));
  }

  lemma ScaledParts(x: Rational, a: int, g: nat, b: nat, h: nat)
    requires x.den > 0 && x.num == a * g && x.den == b * h
    ensures Value(x) * (b as real * h as real) == a as real * g as real
  {
    ValueScales(x);
    CastProduct(a, g);
    CastProduct(b, h);
  }

  lemma CancelCrosswise(x: real, y: real, a: real, b: real, c: real, d: real, g: real, h: real)
    requires g > 0.0 && h > 0.0 && x * (b * h) == a * g && y * (d * g) == c * h
    ensures Times(x, y) * (d * b) == a * c
  {
    Regroup(x, b, h);
    Regroup(y, d, g);
    var p, q := x * b, y * d;
    assert (p * h) * (q * g) == (a * g) * (c * h);
    assert (p * h) * (q * g) == (p * q) * (g * h);
    assert (a * g) * (c * h) == (a * c) * (g * h);
    PositiveProduct(g, h);
    CancelReal(p * q, a * c, g * h);
    assert (x * y) * (d * b) == p * q;
  }

  lemma Regroup(x: real, b: real, h: real)
    ensures x * (b * h) == (x * b) * h
  {
  }

  /** Dividing the numerator by the denominator truncates the value. */
  lemma FloorOfValue(r: Rational)
    requires r.den > 0
    ensures Value(r).Floor == r.num / r.den
  {
    var q := r.num / r.den;
    ValueScales(r);
    QuotientBounds(r.num, r.den);
    CastProduct(q, r.den);
    CastProduct(q + 1, r.den);
    UnscaleOrder(q as real, Value(r), r.den as real);
    UnscaleOrder((q + 1) as real, Value(r), r.den as real);
    assert (q * r.den) as real <= r.num as real < ((q + 1) * r.den) as real;
    FloorIs(Value(r), q);
  }

  lemma FloorIs(x: real, q: int)
    requires q as real <= x < (q + 1) as real
    ensures x.Floor == q
  {
  }

  lemma QuotientBounds(a: int, b: int)
    requires b > 0
    ensures (a / b) * b <= a < (a / b + 1) * b
  {
  }
}
