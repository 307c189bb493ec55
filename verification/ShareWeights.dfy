/**
 The weights that the fast form of Redundant Share gives to the disks of one table: in exact arithmetic
 the landing probabilities of the slow walk, scaled to 64 bits and truncated.
 */
module ShareWeights {
  import opened Arithmetic
  import opened Capacities
  import opened RedundantShare
  import opened Probabilities
  import opened ExactWalk
  import opened Coprime
  import opened Rationals

  const MAX_INT64: nat := 0x7FFF_FFFF_FFFF_FFFF

  /** One disk of a table, with the weight it gets there. */
  datatype Part = Part(id: nat, weight: int)

  type Share = seq<Part>

  function WeightSum(share: Share): int {
    if share == [] then 0 else WeightSum(share[..|share|-1]) + share[|share|-1].weight
  }

  function Scaled(x: real): real { x * MAX_INT64 as real }

  /** What disk i should get of MAX_INT64, exactly. */
  function Exact(a: seq<real>, l: nat, j: nat, i: nat): real
    requires j <= i < |a|
  {
    Scaled(Times(Factor(a, l, j, i), Load(l, a[i])))
  }

  // ---- the weights as they are stored ----

  ghost predicate Denominated(disks: seq<RSDisk>) {
    forall v | 0 <= v < |disks| :: disks[v].checkC.den > 0
  }

  /** The product of the factors of the disks first, ..., i - 1, as the rationals are stored. */
  function FactorOf(disks: seq<RSDisk>, l: nat, first: nat, i: nat): (r: Rational)
    requires Denominated(disks) && first <= i <= |disks|
    ensures r.den > 0
    decreases i
  {
    if i == first then Whole(1)
    else Multiplied(FactorOf(disks, l, first, i - 1), FromOne(Multiplied(disks[i-1].checkC, Whole(l))))
  }

  /** The weight of disk i, as it is stored before it is read. */
  function WeightOf(disks: seq<RSDisk>, l: nat, first: nat, i: nat): (r: Rational)
    requires Denominated(disks) && first <= i < |disks|
    ensures r.den > 0
  {
    WeightFrom(FactorOf(disks, l, first, i), disks[i].checkC, l)
  }

  function WeightFrom(factor: Rational, checkC: Rational, l: nat): (r: Rational)
    requires factor.den > 0 && checkC.den > 0
    ensures r.den > 0
  {
    Multiplied(Multiplied(Multiplied(factor, checkC), Whole(MAX_INT64)), Whole(l))
  }

  /** What disk i gets in a table that begins at disk `first`; `read` turns a stored rational into an integer. */
  function PartOf(disks: seq<RSDisk>, l: nat, first: nat, i: nat, read: Rational -> int): Part
    requires Denominated(disks) && first <= i < |disks|
  {
    Part(disks[i].disk.id, read(WeightOf(disks, l, first, i)))
  }

  function PartsOf(disks: seq<RSDisk>, l: nat, first: nat, end: nat, read: Rational -> int): (parts: seq<Part>)
    requires Denominated(disks) && first <= end <= |disks|
    ensures |parts| == end - first
    decreases end
  {
    if end == first then []
    else PartsOf(disks, l, first, end - 1, read) + [PartOf(disks, l, first, end - 1, read)]
  }

  /**
   The table of the disks first, ..., last for a copy with l left: the last disk gets what remains, if it is
   not too much.
   */
  function ShareOf(disks: seq<RSDisk>, l: nat, first: nat, last: nat, read: Rational -> int): (share: Share)
    requires Denominated(disks) && first <= last < |disks|
    ensures |share| == last - first + 1
  {
    var parts := PartsOf(disks, l, first, last, read);
    var test := PartOf(disks, l, first, last, read);
    parts + [Part(test.id, Min(test.weight, MAX_INT64 - WeightSum(parts)))]
  }

  lemma {:induction false} PartAt(disks: seq<RSDisk>, l: nat, first: nat, end: nat, read: Rational -> int, i: nat)
    requires Denominated(disks) && first <= i < end <= |disks|
    ensures PartsOf(disks, l, first, end, read)[i-first] == PartOf(disks, l, first, i, read)
    decreases end
  {
    if i < end - 1 { PartAt(disks, l, first, end - 1, read, i); }
  }

  /** Every part of a table is for the disk at its place. */
  lemma IdInShare(disks: seq<RSDisk>, l: nat, first: nat, last: nat, read: Rational -> int, i: nat)
    requires Denominated(disks) && first <= i <= last < |disks|
    ensures ShareOf(disks, l, first, last, read)[i-first].id == disks[i].disk.id
  {
    if i < last { PartAt(disks, l, first, last, read, i); }
  }

  /** Builds one table. */
  method CreateShare(disks: seq<RSDisk>, first: nat, last: nat, l: nat, read: Rational -> int) returns (share: Share)
    requires Denominated(disks) && first <= last < |disks|
    ensures share == ShareOf(disks, l, first, last, read)
  {
    share := [];
    var rest: int := MAX_INT64;
    var factor := Whole(1);
    for i := first to last
      invariant share == PartsOf(disks, l, first, i, read)
      invariant rest == MAX_INT64 - WeightSum(share) && factor == FactorOf(disks, l, first, i)
    {
      var part := Part(disks[i].disk.id, read(WeightFrom(factor, disks[i].checkC, l)));
      rest := rest - part.weight;
      factor := Multiplied(factor, FromOne(Multiplied(disks[i].checkC, Whole(l))));
      assert (share + [part])[..|share|] == share;
      share := share + [part];
    }
    var test := read(WeightFrom(factor, disks[last].checkC, l));
    if test < rest { rest := test; }
    share := share + [Part(disks[last].disk.id, rest)];
  }

  // ---- their exact values ----

  lemma CarryDenominated(disks: seq<RSDisk>, a: seq<real>)
    requires Carry(disks, a)
    ensures Denominated(disks)
  {
    forall v | 0 <= v < |disks| ensures disks[v].checkC.den > 0 {
      assert Carries(disks[v], a[v]);
    }
  }

  lemma {:induction false} FactorValue(disks: seq<RSDisk>, a: seq<real>, l: nat, first: nat, i: nat)
    requires Carry(disks, a) && Denominated(disks) && first <= i <= |disks|
    ensures Value(FactorOf(disks, l, first, i)) == Factor(a, l, first, i)
    decreases i
  {
    if first < i {
      FactorValue(disks, a, l, first, i - 1);
      assert Carries(disks[i-1], a[i-1]);
      LoadValue(disks[i-1].checkC, l);
      FromOneValue(Multiplied(disks[i-1].checkC, Whole(l)));
      MultipliedValue(FactorOf(disks, l, first, i - 1), FromOne(Multiplied(disks[i-1].checkC, Whole(l))));
    }
  }

  lemma LoadValue(checkC: Rational, l: nat)
    requires checkC.den > 0
    ensures Value(Multiplied(checkC, Whole(l))) == Load(l, Value(checkC))
  {
    MultipliedValue(checkC, Whole(l));
    WholeValue(l);
  }

  lemma WeightValue(disks: seq<RSDisk>, a: seq<real>, l: nat, first: nat, i: nat)
    requires Carry(disks, a) && Denominated(disks) && first <= i < |disks|
    ensures Value(WeightOf(disks, l, first, i)) == Exact(a, l, first, i)
  {
    FactorValue(disks, a, l, first, i);
    assert Carries(disks[i], a[i]);
    WeightFromValue(FactorOf(disks, l, first, i), disks[i].checkC, l);
  }

  lemma WeightFromValue(factor: Rational, checkC: Rational, l: nat)
    requires factor.den > 0 && checkC.den > 0
    ensures Value(WeightFrom(factor, checkC, l)) == Scaled(Times(Value(factor), Load(l, Value(checkC))))
  {
    var once := Multiplied(factor, checkC);
    var scaled := Multiplied(once, Whole(MAX_INT64));
    MultipliedValue(factor, checkC);
    MultipliedValue(once, Whole(MAX_INT64));
    MultipliedValue(scaled, Whole(l));
    WholeValue(MAX_INT64);
    WholeValue(l);
    Reorder(Value(factor), Value(checkC), MAX_INT64 as real, l as real);
  }

  lemma Reorder(f: real, c: real, m: real, l: real)
    ensures Times(Times(Times(f, c), m), l) == Times(f, l * c) * m
  {
    assert (((f * c) * m) * l) == (f * (l * c)) * m;
  }

  // ---- what the weights mean ----

  ghost predicate Truncates(read: Rational -> int) {
    forall r: Rational | r.den > 0 && r.num >= 0 :: read(r) == r.num / r.den
  }

  /** No disk before `last` is asked for more than a whole copy, and `last` gets at least one. */
  ghost predicate EndsAt(a: seq<real>, l: nat, first: nat, last: nat) {
    && Shares(a) && first <= last < |a|
    && (forall v | first <= v < last :: Load(l, a[v]) <= 1.0)
    && Load(l, a[last]) >= 1.0
  }

  /** The factors never go below zero: their product is the probability that the disks so far all miss. */
  lemma {:induction false} FactorIsMissed(a: seq<real>, l: nat, first: nat, last: nat, i: nat)
    requires EndsAt(a, l, first, last) && first <= i <= last
    ensures Factor(a, l, first, i) == Missed(a, l, first, i) >= 0.0
  {
    FactorOfFitting(a, l, first, i);
  }

  /** The exact weights are the landing probabilities of the slow walk. */
  lemma ExactIsLanding(a: seq<real>, l: nat, first: nat, last: nat, i: nat)
    requires EndsAt(a, l, first, last) && first <= i < last
    ensures Exact(a, l, first, i) == Scaled(Landing(a, l, first, i)) >= 0.0
  {
    FactorIsMissed(a, l, first, last, i);
    assert Load(l, a[i]) <= 1.0 && Accept(a[i], l) == Load(l, a[i]);
    assert Landing(a, l, first, i) == Times(Missed(a, l, first, i), Accept(a[i], l));
    NonNegative(Missed(a, l, first, i), Accept(a[i], l));
  }

  /** The last disk could take at least what is left over exactly. */
  lemma {:induction false} LastExact(a: seq<real>, l: nat, first: nat, last: nat)
    requires EndsAt(a, l, first, last)
    ensures Exact(a, l, first, last) >= Scaled(Landing(a, l, first, last)) >= 0.0
    ensures Landing(a, l, first, last) == Missed(a, l, first, last)
  {
    FactorIsMissed(a, l, first, last, last);
    LandingsSumToOne(a, l, first, last);
    AtLeastOnce(Missed(a, l, first, last), Load(l, a[last]));
  }

  lemma AtLeastOnce(m: real, x: real)
    requires m >= 0.0 && x >= 1.0
    ensures Times(m, x) >= m
  {
    NonNegative(m, x - 1.0);
    assert m * (x - 1.0) == m * x - m;
  }

  /**
   How the weights of a table must be read: truncated before the last disk, and for that one no less than
   the rest.
   */
  ghost predicate ReadsWell(disks: seq<RSDisk>, l: nat, first: nat, last: nat, read: Rational -> int)
    requires Denominated(disks) && first <= last < |disks|
  {
    && (forall i | first <= i < last :: ReadsFloor(disks, l, first, i, read))
    && read(WeightOf(disks, l, first, last)) >= RestOf(disks, l, first, last)
  }

  ghost predicate ReadsFloor(disks: seq<RSDisk>, l: nat, first: nat, i: nat, read: Rational -> int)
    requires Denominated(disks) && first <= i < |disks|
  {
    var w := WeightOf(disks, l, first, i);
    read(w) == w.num / w.den
  }

  /** What the disks before `last` leave of MAX_INT64, truncated. */
  function RestOf(disks: seq<RSDisk>, l: nat, first: nat, last: nat): int
    requires Denominated(disks) && first <= last <= |disks|
  {
    var rest := Multiplied(FactorOf(disks, l, first, last), Whole(MAX_INT64));
    rest.num / rest.den
  }

  /** That is the landing probability of the last disk. */
  lemma RestIsLanding(disks: seq<RSDisk>, a: seq<real>, l: nat, first: nat, last: nat)
    requires EndsAt(a, l, first, last) && Carry(disks, a) && Denominated(disks)
    ensures RestOf(disks, l, first, last) == Scaled(Landing(a, l, first, last)).Floor
  {
    var factor := FactorOf(disks, l, first, last);
    LastExact(a, l, first, last);
    FactorIsMissed(a, l, first, last, last);
    FactorValue(disks, a, l, first, last);
    MultipliedValue(factor, Whole(MAX_INT64));
    WholeValue(MAX_INT64);
    FloorOfValue(Multiplied(factor, Whole(MAX_INT64)));
  }

  lemma WeightFloor(disks: seq<RSDisk>, a: seq<real>, l: nat, first: nat, i: nat)
    requires Carry(disks, a) && Denominated(disks) && first <= i < |disks|
    ensures var w := WeightOf(disks, l, first, i); w.num / w.den == Exact(a, l, first, i).Floor
  {
    WeightValue(disks, a, l, first, i);
    FloorOfValue(WeightOf(disks, l, first, i));
  }

  /** The weight w is the exact one up to the truncation of one weight below and n above. */
  ghost predicate Near(w: int, exact: real, n: int) {
    w >= 0 && exact - 1.0 < w as real <= exact + n as real
  }

  /** Truncation loses less than one per disk. */
  lemma {:induction false} PrefixSum(disks: seq<RSDisk>, a: seq<real>, l: nat, first: nat, last: nat,
                                     read: Rational -> int, end: nat)
    requires EndsAt(a, l, first, last) && first <= end <= last && Carry(disks, a) && Denominated(disks)
    requires forall i | first <= i < end :: ReadsFloor(disks, l, first, i, read)
    ensures Loses(WeightSum(PartsOf(disks, l, first, end, read)), Scaled(LandingSum(a, l, first, end)), end - first)
    decreases end
  {
    if first < end {
      PrefixSum(disks, a, l, first, last, read, end - 1);
      var parts := PartsOf(disks, l, first, end, read);
      assert parts[..|parts|-1] == PartsOf(disks, l, first, end - 1, read);
      ExactIsLanding(a, l, first, last, end - 1);
      WeightFloor(disks, a, l, first, end - 1);
      assert ReadsFloor(disks, l, first, end - 1, read);
    }
  }

  /** A sum of n truncated weights misses the exact sum by less than n, unless n is 0. */
  ghost predicate Loses(sum: int, exact: real, n: nat) {
    sum as real <= exact && (if n == 0 then sum as real == exact else exact - n as real < sum as real)
  }

  /** A weight before the last disk is near its exact value exactly when it is truncated. */
  lemma PartNear(disks: seq<RSDisk>, a: seq<real>, l: nat, first: nat, last: nat, read: Rational -> int, i: nat, w: int)
    requires EndsAt(a, l, first, last) && first <= i < last && Carry(disks, a) && Denominated(disks)
    requires w == read(WeightOf(disks, l, first, i))
    ensures Near(w, Scaled(Landing(a, l, first, i)), 0) <==> ReadsFloor(disks, l, first, i, read)
  {
    ExactIsLanding(a, l, first, last, i);
    WeightFloor(disks, a, l, first, i);
  }

  /**
   The weights of the table are the scaled landing probabilities of the slow walk from disk `first` on,
   up to rounding, and miss MAX_INT64 in all by at most one per disk before the last.
   */
  ghost predicate IsWalkTable(a: seq<real>, l: nat, first: nat, last: nat, share: Share) {
    && Shares(a) && first <= last < |a| && |share| == last - first + 1
    && MAX_INT64 - (last - first) <= WeightSum(share) <= MAX_INT64
    && forall t | 0 <= t < |share| ::
         Near(share[t].weight, Scaled(Landing(a, l, first, first + t)), if t < last - first then 0 else last - first)
  }

  /**
   A table carries the landing probabilities of the slow walk exactly when every weight before the last
   is truncated, and the last one is not read too small.
   */
  lemma WalkTableExactly(disks: seq<RSDisk>, a: seq<real>, l: nat, first: nat, last: nat, read: Rational -> int)
    requires EndsAt(a, l, first, last) && Carry(disks, a) && Denominated(disks)
    ensures IsWalkTable(a, l, first, last, ShareOf(disks, l, first, last, read))
       <==> ReadsWell(disks, l, first, last, read)
  {
    var share, n := ShareOf(disks, l, first, last, read), last - first;
    var parts := PartsOf(disks, l, first, last, read);
    assert share[..n] == parts;
    RestIsLanding(disks, a, l, first, last);
    forall t | 0 <= t < n
      ensures Near(share[t].weight, Scaled(Landing(a, l, first, first + t)), 0)
              <==> ReadsFloor(disks, l, first, first + t, read)
    {
      PartAt(disks, l, first, last, read, first + t);
      PartNear(disks, a, l, first, last, read, first + t, share[t].weight);
    }
    if IsWalkTable(a, l, first, last, share) {
      forall i | first <= i < last ensures ReadsFloor(disks, l, first, i, read) {
        assert Near(share[i-first].weight, Scaled(Landing(a, l, first, first + (i - first))), 0);
      }
      assert Near(share[n].weight, Scaled(Landing(a, l, first, first + n)), n);
    }
    if ReadsWell(disks, l, first, last, read) {
      PrefixSum(disks, a, l, first, last, read, last);
      LastNear(a, l, first, last, read(WeightOf(disks, l, first, last)), WeightSum(parts), share[n].weight);
      forall t | 0 <= t < n ensures Near(share[t].weight, Scaled(Landing(a, l, first, first + t)), 0) {
        assert ReadsFloor(disks, l, first, first + t, read);
      }
    }
  }

  lemma {:induction false} LastNear(a: seq<real>, l: nat, first: nat, last: nat, test: int, sum: int, w: int)
    requires EndsAt(a, l, first, last) && w == Min(test, MAX_INT64 - sum)
    requires test >= Scaled(Landing(a, l, first, last)).Floor
    requires Loses(sum, Scaled(LandingSum(a, l, first, last)), last - first)
    ensures MAX_INT64 - (last - first) <= sum + w <= MAX_INT64
    ensures Near(w, Scaled(Landing(a, l, first, last)), last - first)
  {
    LandedOrMissed(a, l, first, last);
    LastExact(a, l, first, last);
  }

  /** With a truncating reader every table carries the landing probabilities. */
  lemma WeightsAreLandings(disks: seq<RSDisk>, a: seq<real>, l: nat, first: nat, last: nat, read: Rational -> int)
    requires EndsAt(a, l, first, last) && Carry(disks, a) && Denominated(disks) && Truncates(read)
    ensures IsWalkTable(a, l, first, last, ShareOf(disks, l, first, last, read))
  {
    forall i | first <= i < last ensures ReadsFloor(disks, l, first, i, read) {
      ExactIsLanding(a, l, first, last, i);
      TruncatesWeight(disks, a, l, first, i, read);
    }
    LastExact(a, l, first, last);
    TruncatesWeight(disks, a, l, first, last, read);
    WeightFloor(disks, a, l, first, last);
    RestIsLanding(disks, a, l, first, last);
    WalkTableExactly(disks, a, l, first, last, read);
  }

  lemma TruncatesWeight(disks: seq<RSDisk>, a: seq<real>, l: nat, first: nat, i: nat, read: Rational -> int)
    requires Carry(disks, a) && Denominated(disks) && first <= i < |disks| && Truncates(read)
    requires Exact(a, l, first, i) >= 0.0
    ensures ReadsFloor(disks, l, first, i, read)
  {
    var w := WeightOf(disks, l, first, i);
    WeightValue(disks, a, l, first, i);
    ValueScales(w);
    NonNegative(Value(w), w.den as real);
  }

  /** The exact weights of a table are all of MAX_INT64. */
  lemma {:induction false} ExactWeightsSum(a: seq<real>, l: nat, first: nat, last: nat)
    requires EndsAt(a, l, first, last)
    ensures Scaled(LandingSum(a, l, first, last + 1)) == MAX_INT64 as real
  {
    LandingsSumToOne(a, l, first, last);
  }

  // ---- the reader as it is ----

  /** The number whose low 64 bits are those of n. */
  function Signed64(n: int): int {
    var low := n % (2 * MAX_INT64 + 2);
    if low <= MAX_INT64 then low else low - (2 * MAX_INT64 + 2)
  }

  /** Takes the decimal digits of the printed rational up to the fraction bar, in 64 bits. */
  function ReadNumerator(r: Rational): int { Signed64(r.num) }

  /**
   With the reader as it is, a table carries the landing probabilities exactly when the 64 bits that are
   read of every stored numerator before the last are the truncated weight, and those of the last are not too
   small.
   */
  lemma TableAsRead(disks: seq<RSDisk>, a: seq<real>, l: nat, first: nat, last: nat)
    requires EndsAt(a, l, first, last) && Carry(disks, a) && Denominated(disks)
    ensures IsWalkTable(a, l, first, last, ShareOf(disks, l, first, last, ReadNumerator))
       <==> ReadAsWeights(disks, l, first, last)
  {
    WalkTableExactly(disks, a, l, first, last, ReadNumerator);
    ReadsNumerators(disks, l, first, last);
  }

  lemma ReadsNumerators(disks: seq<RSDisk>, l: nat, first: nat, last: nat)
    requires Denominated(disks) && first <= last < |disks|
    ensures ReadsWell(disks, l, first, last, ReadNumerator) <==> ReadAsWeights(disks, l, first, last)
  {
    forall i | first <= i < last
      ensures ReadsFloor(disks, l, first, i, ReadNumerator) <==> ReadAsWeight(WeightOf(disks, l, first, i)) {}
    if ReadsWell(disks, l, first, last, ReadNumerator) {
      forall i | first <= i < last ensures ReadAsWeight(WeightOf(disks, l, first, i)) {
        assert ReadsFloor(disks, l, first, i, ReadNumerator);
      }
    }
  }

  /** The 64 bits of the numerator are the truncated weight. */
  ghost predicate ReadAsWeight(w: Rational)
    requires w.den > 0
  {
    Signed64(w.num) == w.num / w.den
  }

  ghost predicate ReadAsWeights(disks: seq<RSDisk>, l: nat, first: nat, last: nat)
    requires Denominated(disks) && first <= last < |disks|
  {
    && (forall i | first <= i < last :: ReadAsWeight(WeightOf(disks, l, first, i)))
    && Signed64(WeightOf(disks, l, first, last).num) >= RestOf(disks, l, first, last)
  }

  /** For a numerator of 63 bits they are exactly if the stored denominator is one, or the weight is nothing. */
  lemma NumeratorIsTruncation(w: Rational)
    requires 0 <= w.num <= MAX_INT64 && w.den > 0
    ensures ReadAsWeight(w) <==> w.den == 1 || w.num == 0
  {
    assert Signed64(w.num) == w.num;
    if w.den > 1 && w.num > 0 { QuotientSmaller(w.num, w.den); }
    if w.num == 0 { ModMultiple(0, w.den, 0); }
  }

  lemma QuotientSmaller(n: nat, d: nat)
    requires n > 0 && d > 1
    ensures n / d < n
  {
    DivisionBounds(n, d);
    if n / d >= n {
      MulMonotone(n, n / d, d);
      MulMonotone(2, d, n);
    }
  }

  /** One copy on two disks of capacity one always goes to the first: the second gets weight zero instead of half. */
  lemma NumeratorStarvesSecondDisk(disks: seq<RSDisk>)
    requires IsAligned(disks) && AlignedOf(disks) == [1, 1]
    ensures Denominated(disks) && Shares(Quotients([1, 1])) && Landing(Quotients([1, 1]), 1, 0, 1) == 0.5
    ensures var share := ShareOf(disks, 1, 0, 1, ReadNumerator);
            share[0].weight == MAX_INT64 && share[1].weight == 0
  {
    var c: seq<nat> := [1, 1];
    QuotientsAreShares(c);
    AlignedDisksCarry(disks);
    CarryDenominated(disks, Quotients(c));
    assert c[1..] == [1] && c[0..] == c && [1][1..] == [];
    assert Total([1]) == 1 && Total(c) == 2;
    var a := Quotients(c);
    assert a[0] == Ratio(1, 2) == 0.5;
    assert Accept(a[0], 1) == 0.5 && Missed(a, 1, 0, 0) == 1.0 && Missed(a, 1, 0, 1) == 0.5;
    assert a[1] == Ratio(1, 1) == 1.0 && Accept(a[1], 1) == 1.0;
    assert disks[0].checkC == Rational(1, 2) && disks[1].checkC == Rational(1, 1);
    HalfWeights();
    assert FactorOf(disks, 1, 0, 0) == Whole(1);
    assert FactorOf(disks, 1, 0, 1) == Rational(1, 2);
    var parts := PartsOf(disks, 1, 0, 1, ReadNumerator);
    assert parts == [PartOf(disks, 1, 0, 0, ReadNumerator)] && parts[..0] == [];
    assert Signed64(MAX_INT64) == MAX_INT64;
    assert WeightSum(parts) == MAX_INT64;
  }

  lemma HalfWeights()
    ensures Multiplied(Whole(1), FromOne(Multiplied(Rational(1, 2), Whole(1)))) == Rational(1, 2)
    ensures WeightFrom(Whole(1), Rational(1, 2), 1) == Rational(MAX_INT64, 2)
    ensures WeightFrom(Rational(1, 2), Whole(1), 1) == Rational(MAX_INT64, 2)
  {
    assert Gcd(1, 2) == Gcd(2, 1) == Gcd(1, 0) == 1;
    assert Gcd(1, 1) == 1;
    assert Multiplied(Rational(1, 2), Whole(1)) == Rational(1, 2);
    assert Multiplied(Whole(1), Rational(1, 2)) == Rational(1, 2);
    assert Gcd(MAX_INT64, 2) == Gcd(2, 1) && Gcd(MAX_INT64, 1) == Gcd(1, 0);
    assert Multiplied(Rational(1, 2), Whole(MAX_INT64)) == Rational(MAX_INT64, 2);
    assert Multiplied(Rational(MAX_INT64, 2), Whole(1)) == Rational(MAX_INT64, 2);
  }

  /** Two copies on two disks of capacity two: the table of the first copy has one disk, whose weight is read as -2. */
  lemma NumeratorTurnsNegative(disks: seq<RSDisk>)
    requires IsAligned(disks) && AlignedOf(disks) == [2, 2]
    ensures Denominated(disks) && ShareOf(disks, 2, 0, 0, ReadNumerator)[0].weight == -2
  {
    var c: seq<nat> := [2, 2];
    AlignedDisksCarry(disks);
    CarryDenominated(disks, Quotients(c));
    assert c[0..] == c && c[1..] == [2] && [2][1..] == [] && Total([2]) == 2 && Total(c) == 4;
    assert disks[0].checkC == Rational(2, 4);
    UnreducedWeight();
    assert PartsOf(disks, 2, 0, 0, ReadNumerator) == [];
    assert Signed64(2 * MAX_INT64) == -2;
  }

  lemma UnreducedWeight()
    ensures WeightFrom(Whole(1), Rational(2, 4), 2) == Rational(2 * MAX_INT64, 2)
  {
    assert Gcd(1, 4) == Gcd(4, 1) == Gcd(1, 0) == 1;
    assert Gcd(2, 1) == Gcd(1, 0);
    assert Multiplied(Whole(1), Rational(2, 4)) == Rational(2, 4);
    assert Gcd(MAX_INT64, 4) == Gcd(4, 3) == Gcd(3, 1) == Gcd(1, 0);
    assert Multiplied(Rational(2, 4), Whole(MAX_INT64)) == Rational(2 * MAX_INT64, 4);
    assert Gcd(2 * MAX_INT64, 1) == Gcd(1, 0);
    assert Gcd(2, 4) == Gcd(4, 2) == Gcd(2, 0) == 2;
    assert Multiplied(Rational(2 * MAX_INT64, 4), Whole(2)) == Rational(2 * MAX_INT64, 2);
  }
}
