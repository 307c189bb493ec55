/**
 The random generator of RUSH_R: three multiplicative generators, with a logarithmic jump ahead.
 Division and remainder truncate towards zero.
 */
module WichmannHill {
  import opened Arithmetic

  function TruncDiv(a: int, b: nat): int
    requires b > 0
  {
    if a >= 0 then a / b else -((-a) / b)
  }

  function TruncMod(a: int, b: nat): int
    requires b > 0
  {
    if a >= 0 then a % b else -((-a) % b)
  }

  const MODULUS_X: nat := 30269
  const MODULUS_Y: nat := 30307
  const MODULUS_Z: nat := 30323

  datatype State = State(x: int, y: int, z: int)

  ghost predicate InRange(s: State) {
    0 < s.x < MODULUS_X && 0 < s.y < MODULUS_Y && 0 < s.z < MODULUS_Z
  }

  // ---- single steps ----

  /** One step of one of the three generators. */
  function Step(factor: nat, x: int, m: nat): int
    requires m > 0
  {
    TruncMod(factor * x, m)
  }

  function Next(s: State): State {
    State(Step(171, s.x, MODULUS_X), Step(172, s.y, MODULUS_Y), Step(170, s.z, MODULUS_Z))
  }

  function Steps(s: State, j: nat): State {
    if j == 0 then s else Next(Steps(s, j - 1))
  }

  /** The remainder of a division by one, with the sign of u. */
  function Fraction(u: real): real {
    if u >= 0.0 then u - u.Floor as real else -(-u - (-u).Floor as real)
  }

  /** The random number that a state stands for. */
  function Uniform(s: State): real {
    Fraction(s.x as real / 30269.0 + s.y as real / 30307.0 + s.z as real / 30323.0)
  }

  lemma UniformInUnit(s: State)
    requires InRange(s)
    ensures 0.0 <= Uniform(s) < 1.0
  {
  }

  lemma ModUnique(a: int, m: nat, q: int, r: nat)
    requires m > 0 && a == q * m + r && r < m
    ensures a % m == r && a / m == q
  {
    var d := a / m - q;
    assert a == (a / m) * m + a % m;
    assert d * m == r - a % m;
    LargeMultiple(d, m);
  }

  lemma LargeMultiple(d: int, m: nat)
    ensures d != 0 ==> d * m >= m || d * m + m <= 0
  {
  }

  lemma ModMul(a: nat, b: nat, m: nat)
    requires m > 0
    ensures ((a % m) * b) % m == (a * b) % m
  {
    var q, r := a / m, a % m;
    var p := r * b;
    assert a * b == (q * b) * m + p by { assert a == q * m + r; }
    assert p == (p / m) * m + p % m;
    var t := q * b + p / m;
    assert t * m == (q * b) * m + (p / m) * m;
    ModUnique(a * b, m, t, p % m);
  }

  /** Multiplying by a factor that has an inverse never leads to zero, and can be undone. */
  lemma StepInvertible(factor: nat, inverse: nat, x: int, m: nat)
    requires 0 < x < m && MulMod(factor, inverse, m) == 1
    ensures 0 < Step(factor, x, m) < m
    ensures Step(inverse, Step(factor, x, m), m) == x
  {
    var y := MulMod(factor, x, m);
    StepIsMulMod(factor, x, m);
    StepIsMulMod(inverse, y, m);
    MulModRegroup(factor, x, inverse, m);
    MulModZero(inverse, m);
  }

  function MulMod(a: nat, b: nat, m: nat): (r: nat)
    requires m > 0
    ensures r < m
  {
    (a * b) % m
  }

  lemma StepIsMulMod(factor: nat, x: nat, m: nat)
    requires m > 0
    ensures Step(factor, x, m) == MulMod(factor, x, m)
  {
    assert factor * x >= 0;
  }

  lemma MulModRegroup(f: nat, x: nat, i: nat, m: nat)
    requires 0 < x < m && MulMod(f, i, m) == 1
    ensures MulMod(i, MulMod(f, x, m), m) == x
  {
    MulModCommutes(i, MulMod(f, x, m), m);
    MulModSwap(f, x, i, m);
    MulModOne(x, m);
  }

  lemma MulModOne(x: nat, m: nat)
    requires x < m
    ensures MulMod(1, x, m) == x
  {
  }

  lemma MulModSwap(f: nat, x: nat, i: nat, m: nat)
    requires m > 0
    ensures MulMod(MulMod(f, x, m), i, m) == MulMod(MulMod(f, i, m), x, m)
  {
    var p := Product(f, x);
    var q := Product(f, i);
    MulModOfMod(p, i, m);
    MulModOfMod(q, x, m);
    MulModTriple(f, x, i, m);
  }

  function Product(a: nat, b: nat): nat {
    NatProduct(a, b);
    a * b
  }

  lemma MulModOfMod(a: nat, b: nat, m: nat)
    requires m > 0
    ensures MulMod(a % m, b, m) == MulMod(a, b, m)
  {
    ModMul(a, b, m);
  }

  lemma MulModCommutes(a: nat, b: nat, m: nat)
    requires m > 0
    ensures MulMod(a, b, m) == MulMod(b, a, m)
  {
    assert a * b == b * a;
  }

  lemma MulModTriple(f: nat, x: nat, i: nat, m: nat)
    requires m > 0
    ensures MulMod(Product(f, x), i, m) == MulMod(Product(f, i), x, m)
  {
    assert (f * x) * i == (f * i) * x;
  }

  lemma MulModZero(i: nat, m: nat)
    requires m > 0
    ensures MulMod(i, 0, m) == 0
  {
  }

  /** A state that can be reached is never zero in a component, and the step loses nothing. */
  lemma NextInRange(s: State)
    requires InRange(s)
    ensures InRange(Next(s))
    ensures var n := Next(s);
            s == State(Step(INVERSE_X, n.x, MODULUS_X), Step(INVERSE_Y, n.y, MODULUS_Y),
                Step(INVERSE_Z, n.z, MODULUS_Z))
  {
    StepInvertible(171, INVERSE_X, s.x, MODULUS_X);
    StepInvertible(172, INVERSE_Y, s.y, MODULUS_Y);
    StepInvertible(170, INVERSE_Z, s.z, MODULUS_Z);
  }

  const INVERSE_X: nat := 15046
  const INVERSE_Y: nat := 19911
  const INVERSE_Z: nat := 25507

  lemma {:induction false} StepsInRange(s: State, j: nat)
    requires InRange(s)
    ensures InRange(Steps(s, j))
  {
    if j > 0 {
      StepsInRange(s, j - 1);
      NextInRange(Steps(s, j - 1));
    }
  }

  /** No number that the generator will give is negative. */
  ghost predicate NeverNegative(s: State) {
    forall j: nat :: 0.0 <= Uniform(Steps(s, j))
  }

  lemma InRangeNeverNegative(s: State)
    requires InRange(s)
    ensures NeverNegative(s)
  {
    forall j: nat ensures 0.0 <= Uniform(Steps(s, j)) {
      StepsInRange(s, j);
      UniformInUnit(Steps(s, j));
    }
  }

  // ---- the jump ahead ----

  function Power(a: nat, b: nat): nat {
    if b == 0 then 1 else a * Power(a, b - 1)
  }

  /** a^b mod n by squaring; nothing is done for b <= 0. */
  function PowerMod(a: nat, b: int, n: nat): nat
    requires n > 0
  {
    if b <= 0 then 1 else Power(a, b) % n
  }

  lemma {:induction false} PowerSquare(a: nat, b: nat)
    ensures Power(a * a, b) == Power(a, 2 * b)
  {
    if b > 0 {
      PowerSquare(a, b - 1);
      assert Power(a, 2 * b) == a * Power(a, 2 * b - 1);
      assert Power(a, 2 * b - 1) == a * Power(a, 2 * b - 2);
      Regroup(a, Power(a, 2 * b - 2));
    }
  }

  lemma Regroup(a: nat, p: nat)
    ensures a * (a * p) == (a * a) * p
  {
  }

  lemma {:induction false} PowerOfMod(a: nat, b: nat, n: nat)
    requires n > 0
    ensures Power(a % n, b) % n == Power(a, b) % n
  {
    if b > 0 {
      PowerOfMod(a, b - 1, n);
      var r, p, q := a % n, Power(a % n, b - 1), Power(a, b - 1);
      ModMul(p, r, n);
      ModMul(q, r, n);
      ModMul(a, q, n);
      assert r * p == p * r && r * q == q * r;
    }
  }

  /** One round of the squaring loop keeps accum * y^x the same modulo n. */
  lemma SquareRound(accum: nat, y: nat, x: nat, n: nat)
    requires n > 0 && x > 0
    ensures var accum' := if x % 2 == 1 then (accum * y) % n else accum;
            Residue(accum', (y * y) % n, x / 2, n) == Residue(accum, y, x, n)
  {
    var h := x / 2;
    var s := Power(y, 2 * h);
    PowerSquare(y, h);
    PowerOfMod(y * y, h, n);
    var t := Power((y * y) % n, h);
    assert t % n == s % n;
    if x % 2 == 1 {
      assert Power(y, x) == y * s;
      MulCongruent((accum * y) % n, t, s, n);
      ModMul(accum * y, s, n);
      assert (accum * y) * s == accum * (y * s);
    } else {
      MulCongruent(accum, t, s, n);
    }
  }

  lemma MulCongruent(c: nat, t: nat, s: nat, n: nat)
    requires n > 0 && t % n == s % n
    ensures (c * t) % n == (c * s) % n
  {
    ModMul(t, c, n);
    ModMul(s, c, n);
    assert c * t == t * c && c * s == s * c;
  }

  /** What the squaring loop still has to multiply together, modulo n. */
  function Residue(accum: nat, y: nat, x: nat, n: nat): nat
    requires n > 0
  {
    (accum * Power(y, x)) % n
  }

  method ExpMod(a: nat, b: int, n: nat) returns (accum: nat)
    requires n > 0
    ensures accum == PowerMod(a, b, n)
  {
    accum := 1;
    if b <= 0 { return; }
    var x: nat := b;
    var y: nat := a % n;
    PowerOfMod(a, b, n);
    while x > 0
      invariant Residue(accum, y, x, n) == Power(a, b) % n
      invariant x == 0 ==> accum < n
    {
      SquareRound(accum, y, x, n);
      if x % 2 == 1 {
        accum := (accum * y) % n;
      }
      y := (y * y) % n;
      x := x / 2;
    }
    SmallResidue(accum, y, n);
  }

  lemma SmallResidue(accum: nat, y: nat, n: nat)
    requires accum < n
    ensures Residue(accum, y, 0, n) == accum
  {
  }

  /** One component of the state after a jump. */
  function Jump(factor: nat, x: int, jumps: int, m: nat): int
    requires m > 0
  {
    TruncMod(x * PowerMod(factor, jumps, m), m)
  }

  function Jumped(s: State, jumps: int): State {
    State(Jump(171, s.x, jumps, MODULUS_X), Jump(172, s.y, jumps, MODULUS_Y), Jump(170, s.z, jumps, MODULUS_Z))
  }

  /** j steps of one of the three generators. */
  function Iterate(factor: nat, x: int, j: nat, m: nat): int
    requires m > 0
  {
    if j == 0 then x else Step(factor, Iterate(factor, x, j - 1, m), m)
  }

  lemma {:induction false} StepsIterate(s: State, j: nat)
    ensures Steps(s, j) ==
            State(Iterate(171, s.x, j, MODULUS_X), Iterate(172, s.y, j, MODULUS_Y), Iterate(170, s.z, j, MODULUS_Z))
  {
    if j > 0 { StepsIterate(s, j - 1); }
  }

  lemma {:induction false} IterateIsPower(factor: nat, x: nat, j: nat, m: nat)
    requires m > 0 && (j > 0 || x < m)
    ensures Iterate(factor, x, j, m) == MulMod(x, Power(factor, j), m)
  {
    if j == 0 {
      MulModCommutes(x, 1, m);
      MulModOne(x, m);
    } else if j == 1 {
      StepIsMulMod(factor, x, m);
      MulModCommutes(factor, x, m);
      assert Iterate(factor, x, 0, m) == x;
      assert Power(factor, 1) == factor * Power(factor, 0) == factor;
    } else {
      IterateIsPower(factor, x, j - 1, m);
      StepIsMulMod(factor, MulMod(x, Power(factor, j - 1), m), m);
      MulModAssociates(factor, x, Power(factor, j - 1), m);
    }
  }

  lemma MulModAssociates(f: nat, x: nat, p: nat, m: nat)
    requires m > 0
    ensures MulMod(f, MulMod(x, p, m), m) == MulMod(x, Product(f, p), m)
  {
    MulModCommutes(f, MulMod(x, p, m), m);
    MulModOfMod(Product(x, p), f, m);
    MulModTripleCommutes(f, x, p, m);
  }

  lemma MulModTripleCommutes(f: nat, x: nat, p: nat, m: nat)
    requires m > 0
    ensures MulMod(Product(x, p), f, m) == MulMod(x, Product(f, p), m)
  {
    assert (x * p) * f == x * (f * p);
  }

  lemma {:induction false} JumpIsPower(factor: nat, x: nat, j: nat, m: nat)
    requires m > 0
    ensures Jump(factor, x, j, m) == MulMod(x, Power(factor, j), m)
  {
    if j > 0 {
      MulModCommutes(x, Power(factor, j) % m, m);
      MulModOfMod(Power(factor, j), x, m);
      MulModCommutes(x, Power(factor, j), m);
      NatProduct(x, Power(factor, j) % m);
    }
  }

  /** A jump by j leads where j steps lead; only a jump by nothing also reduces components that are too large. */
  lemma {:induction false} JumpIsSteps(s: State, j: nat)
    requires s.x >= 0 && s.y >= 0 && s.z >= 0
    ensures Jumped(s, j) == Steps(s, j) <==> j > 0 || (s.x < MODULUS_X && s.y < MODULUS_Y && s.z < MODULUS_Z)
  {
    StepsIterate(s, j);
    JumpIsPower(171, s.x, j, MODULUS_X);
    JumpIsPower(172, s.y, j, MODULUS_Y);
    JumpIsPower(170, s.z, j, MODULUS_Z);
    if j > 0 || s.x < MODULUS_X { IterateIsPower(171, s.x, j, MODULUS_X); }
    if j > 0 || s.y < MODULUS_Y { IterateIsPower(172, s.y, j, MODULUS_Y); }
    if j > 0 || s.z < MODULUS_Z { IterateIsPower(170, s.z, j, MODULUS_Z); }
  }

  // ---- the seed ----

  function Seeded(seed: int): State {
    var second := TruncDiv(seed, 30268);
    var third := TruncDiv(second, 30306);
    State(TruncMod(seed, 30268) + 1, TruncMod(second, 30306) + 1, TruncMod(third, 30322) + 1)
  }

  /** The components are the digits of the seed, so seeds up to the product of the bases are told apart. */
  lemma SeedDigits(seed: nat)
    requires seed < 30268 * 30306 * 30322
    ensures var s := Seeded(seed);
            && 1 <= s.x <= 30268 && 1 <= s.y <= 30306 && 1 <= s.z <= 30322
            && seed == (s.x - 1) + 30268 * ((s.y - 1) + 30306 * (s.z - 1))
  {
    var second := seed / 30268;
    assert seed == 30268 * second + seed % 30268;
    assert second == 30306 * (second / 30306) + second % 30306;
    assert second / 30306 < 30322;
  }

  /** A seed leads to usable components exactly when it is not negative, or its remainders all vanish. */
  lemma SeedInRange(seed: int)
    ensures InRange(Seeded(seed)) <==>
              seed >= 0 || (seed % 30268 == 0 && (seed / 30268) % 30306 == 0 && (seed / 30268 / 30306) % 30322 == 0)
  {
    if seed < 0 {
      NegativeRemainder(seed, 30268);
      var second := TruncDiv(seed, 30268);
      if seed % 30268 == 0 {
        NegativeRemainder(second, 30306);
        if second % 30306 == 0 { NegativeRemainder(TruncDiv(second, 30306), 30322); }
      }
    }
  }

  lemma NegativeRemainder(a: int, b: nat)
    requires b > 0 && a < 0
    ensures TruncMod(a, b) >= 0 <==> a % b == 0
    ensures TruncMod(a, b) <= 0
    ensures a % b == 0 ==> TruncDiv(a, b) == a / b < 0
  {
    var c := -a;
    assert c == (c / b) * b + c % b;
    assert a == (a / b) * b + a % b;
    if c % b == 0 {
      assert a == (-(c / b)) * b;
      ModUnique(a, b, -(c / b), 0);
    } else {
      assert a == (-(c / b) - 1) * b + (b - c % b);
      ModUnique(a, b, -(c / b) - 1, b - c % b);
    }
  }

  /** Seed -1 gives a first component that stays zero for ever. */
  lemma {:induction false} NegativeSeedSticks(j: nat)
    ensures Steps(Seeded(-1), j).x == 0
  {
    if j > 0 { NegativeSeedSticks(j - 1); }
  }

  lemma {:induction false} FourteenthPower(a: nat)
    ensures var s := a * a;
            var q := s * s;
            Power(a, 14) == s * (q * (q * q))
  {
    var s := a * a;
    PowerSquare(a, 7);
    PowerSquare(s, 3);
    assert Power(s, 7) == s * Power(s, 6);
    var q := s * s;
    assert Power(q, 1) == q * Power(q, 0);
    assert Power(q, 2) == q * Power(q, 1);
    assert Power(q, 3) == q * Power(q, 2);
  }

  /** Seed -60540 gives a negative number after a jump by 14. */
  lemma NegativeSeedDrawsBelow()
    ensures Uniform(Next(Jumped(Seeded(-60540), 14))) < -0.5
  {
    FourteenthPower(171);
    FourteenthPower(172);
    FourteenthPower(170);
    assert Power(171, 14) % 30269 == 17194;
    assert Power(172, 14) % 30307 == 12128;
    assert Power(170, 14) % 30323 == 15759;
    assert Seeded(-60540) == State(-3, -1, 1);
    assert Jumped(Seeded(-60540), 14) == State(-21313, -12128, 15759);
    assert Next(State(-21313, -12128, 15759)) == State(-12243, -25140, 10606);
  }

  /** The generator state that the placement passes from call to call. */
  class Generator {
    var x: int
    var y: int
    var z: int

    function Current(): State
      reads this
    {
      State(x, y, z)
    }

    constructor (seed: int)
      ensures Current() == Seeded(seed)
    {
      x := TruncMod(seed, 30268) + 1;
      var second := TruncDiv(seed, 30268);
      y := TruncMod(second, 30306) + 1;
      var third := TruncDiv(second, 30306);
      z := TruncMod(third, 30322) + 1;
    }

    method Random() returns (u: real)
      modifies this
      ensures Current() == Next(old(Current())) && u == Uniform(Current())
    {
      x := TruncMod(171 * x, MODULUS_X);
      y := TruncMod(172 * y, MODULUS_Y);
      z := TruncMod(170 * z, MODULUS_Z);
      u := Fraction(x as real / 30269.0 + y as real / 30307.0 + z as real / 30323.0);
    }

    method JumpAhead(jumps: int)
      modifies this
      ensures Current() == Jumped(old(Current()), jumps)
    {
      var p := ExpMod(171, jumps, MODULUS_X);
      var q := ExpMod(172, jumps, MODULUS_Y);
      var r := ExpMod(170, jumps, MODULUS_Z);
      x := TruncMod(x * p, MODULUS_X);
      y := TruncMod(y * q, MODULUS_Y);
      z := TruncMod(z * r, MODULUS_Z);
    }
  }
}
