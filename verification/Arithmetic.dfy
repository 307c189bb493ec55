/** Arithmetic that several models share; products are kept behind names so that proofs can treat them as units. */
module Arithmetic {

  const TWO_TO_THE_32: nat := 0x1_0000_0000

  function Times(x: real, y: real): real { x * y }

  /** The mean of x and y with the weights p and 1 - p. */
  function Mix(p: real, x: real, y: real): real { p * x + (1.0 - p) * y }

  lemma NonNegative(x: real, y: real)
    requires 0.0 <= x && 0.0 <= y
    ensures 0.0 <= x * y
  {
  }

  lemma PositiveProduct(x: real, y: real)
    requires 0.0 < x && 0.0 <= y
    ensures 0.0 <= x * y && (0.0 < y ==> 0.0 < x * y)
  {
  }

  lemma NatProduct(a: nat, b: nat)
    ensures a * b >= 0
  {
  }

  lemma MulMonotone(a: int, b: int, c: int)
    requires a <= b && c >= 0
    ensures a * c <= b * c
  {
  }

  lemma ZeroTimes(x: real)
    ensures Times(0.0, x) == 0.0
  {
  }

  lemma TimesZero(x: real)
    ensures Times(x, 0.0) == 0.0
  {
  }

  lemma CancelReal(x: real, y: real, s: real)
    requires s != 0.0 && x * s == y * s
    ensures x == y
  {
    assert (x - y) * s == 0.0;
  }

  lemma {:induction false} CastProduct(a: int, b: int)
    ensures (a * b) as real == a as real * b as real
    decreases if a < 0 then -a else a
  {
    if a > 0 {
      CastProduct(a - 1, b);
      CastStep(a - 1, b);
    } else if a < 0 {
      CastProduct(a + 1, b);
      CastStep(a, b);
    }
  }

  lemma CastStep(a: int, b: int)
    ensures (a + 1) * b == a * b + b
    ensures (a + 1) as real * b as real == a as real * b as real + b as real
  {
    assert (a + 1) as real == a as real + 1.0;
  }

  lemma UnscaleOrder(x: real, y: real, s: real)
    requires s > 0.0
    ensures x <= y <==> x * s <= y * s
  {
    assert (y - x) * s == y * s - x * s;
    if x < y { PositiveProduct(y - x, s); }
    if x > y { PositiveProduct(x - y, s); }
  }

  function Min(a: int, b: int): int { if a < b then a else b }

  /** The low 32 bits of n. */
  function Low32(n: int): nat { n % TWO_TO_THE_32 }

  /** The number of a 32-bit `int` with the low bits of n. */
  function Int32(n: int): int {
    if 2 * Low32(n) < TWO_TO_THE_32 then Low32(n) else Low32(n) - TWO_TO_THE_32
  }

  lemma Int32Sum(a: int, b: int)
    ensures Int32(Int32(a) + b) == Int32(a + b) && Low32(Int32(a)) == Low32(a)
  {
  }

  lemma Low32Product(n: nat, a: int)
    ensures Low32(n * Int32(a)) == Low32(n * a)
  {
    var k := if 2 * Low32(a) < TWO_TO_THE_32 then a / TWO_TO_THE_32 else a / TWO_TO_THE_32 + 1;
    assert Int32(a) == a - k * TWO_TO_THE_32;
    assert n * (a - k * TWO_TO_THE_32) == n * a - (n * k) * TWO_TO_THE_32;
    Low32Shift(n * a, n * k);
  }

  lemma Low32Shift(x: int, j: int)
    ensures Low32(x - j * TWO_TO_THE_32) == Low32(x)
  {
  }
}
