/**
 The exact probabilities of a configured Redundant Share: the quotients it stores are the shares of
 the probabilistic walk, and its functions P and r compute missing and landing probabilities.
 */
module ExactWalk {
  import opened Arithmetic
  import opened Capacities
  import opened Rationals
  import opened RedundantShare
  import opened Probabilities

  function Ratio(a: nat, s: nat): real
    requires s > 0
  {
    a as real / s as real
  }

  function Quotient(c: seq<nat>, q: nat): real
    requires Positive(c) && q < |c|
  {
    TotalPositive(c[q..]);
    Ratio(c[q], Total(c[q..]))
  }

  /** The share of every disk among the disks from it on. */
  function Quotients(c: seq<nat>): (a: seq<real>)
    requires Positive(c)
    ensures |a| == |c| && forall q | 0 <= q < |c| :: a[q] == Quotient(c, q)
  {
    seq(|c|, q requires 0 <= q < |c| => Quotient(c, q))
  }

  lemma QuotientsAreShares(c: seq<nat>)
    requires Positive(c)
    ensures Shares(Quotients(c))
  {
    forall q | 0 <= q < |c| ensures Quotient(c, q) > 0.0 {
      TotalPositive(c[q..]);
      RatioPositive(c[q], Total(c[q..]));
    }
  }

  lemma RatioPositive(a: nat, s: nat)
    requires a > 0 && s > 0
    ensures Ratio(a, s) > 0.0
  {
  }

  /** Comparing exact rationals: l * (a / s) against 1 is l * a against s. */
  lemma LoadAgainstOne(l: nat, a: nat, s: nat)
    requires s > 0
    ensures Load(l, Ratio(a, s)) >= 1.0 <==> l * a >= s
    ensures Load(l, Ratio(a, s)) <= 1.0 <==> l * a <= s
  {
    CastProduct(l, a);
    RatioScales(a, s);
    ScaledLoad(l as real, Ratio(a, s), s as real, a as real);
    CompareScaled(Load(l, Ratio(a, s)), s as real, (l * a) as real);
  }

  lemma RatioScales(a: nat, s: nat)
    requires s > 0
    ensures Ratio(a, s) * s as real == a as real
  {
  }

  lemma ScaledLoad(l: real, r: real, s: real, a: real)
    requires r * s == a
    ensures (l * r) * s == l * a
  {
  }

  lemma CompareScaled(x: real, s: real, y: real)
    requires s > 0.0 && x * s == y
    ensures x >= 1.0 <==> y >= s
    ensures x <= 1.0 <==> y <= s
  {
  }

  /** The integer scan is the scan over the quotients. */
  lemma ScheduleIsScan(c: seq<nat>, k: nat)
    requires Positive(c)
    ensures Scanned(Quotients(c), Schedule(c, k))
  {
    forall q | 0 <= q < |c| ensures ScannedAt(Quotient(c, q), Remaining(c, k, q), Remaining(c, k, q + 1)) {
      ScanStepAgrees(c, k, q);
    }
  }

  lemma ScanStepAgrees(c: seq<nat>, k: nat, q: nat)
    requires Positive(c) && q < |c|
    ensures ScannedAt(Quotient(c, q), Remaining(c, k, q), Remaining(c, k, q + 1))
  {
    TotalPositive(c[q..]);
    LoadAgainstOne(Remaining(c, k, q), c[q], Total(c[q..]));
  }

  lemma {:induction false} ErrorIsOverfull(c: seq<nat>, k: nat, q: nat)
    requires Positive(c) && q < |c|
    ensures KError(c, k, q) == -1 <==> Load(Remaining(c, k, q), Quotient(c, q)) <= 1.0
  {
    TotalPositive(c[q..]);
    LoadAgainstOne(Remaining(c, k, q), c[q], Total(c[q..]));
    if Remaining(c, k, q) == 0 { assert 0 * c[q] == 0; }
  }

  /** The share of disk i from disk q on is its part of their total capacity. */
  lemma {:induction false} ShareIsRatio(c: seq<nat>, q: nat, i: nat)
    requires Positive(c) && q <= i < |c|
    ensures Total(c[q..]) > 0 && ShareFrom(Quotients(c), q, i) == Ratio(c[i], Total(c[q..]))
    decreases i - q
  {
    TotalPositive(c[q..]);
    if q < i {
      ShareIsRatio(c, q + 1, i);
      TotalSuffix(c, q);
      BehindRatio(c[q], c[i], Total(c[q+1..]));
    }
  }

  lemma BehindRatio(a: nat, ci: nat, behind: nat)
    requires behind > 0
    ensures Behind(Ratio(a, a + behind), Ratio(ci, behind)) == Ratio(ci, a + behind)
  {
    var s, b := (a + behind) as real, behind as real;
    var x, y := Ratio(a, a + behind), Ratio(ci, behind);
    RatioScales(a, a + behind);
    RatioScales(ci, behind);
    RatioScales(ci, a + behind);
    assert s == a as real + b;
    BehindScaled(x, y, Ratio(ci, a + behind), s, b, a as real, ci as real);
  }

  lemma BehindScaled(x: real, y: real, z: real, s: real, b: real, a: real, ci: real)
    requires s > 0.0 && s == a + b && x * s == a && y * b == ci && z * s == ci
    ensures (1.0 - x) * y == z
  {
    assert ((1.0 - x) * y) * s == (s - x * s) * y;
    assert (s - x * s) * y == b * y;
    CancelReal((1.0 - x) * y, z, s);
  }

  /**
   Without correction values the walk is fair exactly when no disk is marked: every disk is then
   expected to hold k times its part of the total capacity, and a marked disk means that some disk is not.
   */
  lemma FairExactlyWithoutErrors(c: seq<nat>, k: nat)
    requires Positive(c) && c != []
    ensures Total(c) > 0 && Shares(Quotients(c))
    ensures (forall i: nat | i < |c| :: Expected(Quotients(c), 0, k, i) == Load(k, Ratio(c[i], Total(c))))
       <==> (forall q: nat | q < |c| :: KError(c, k, q) == -1)
  {
    var a, left := Quotients(c), Schedule(c, k);
    QuotientsAreShares(c);
    ScheduleIsScan(c, k);
    FairIffNeverOverfull(a, left);
    TotalPositive(c);
    forall i: nat | i < |c| ensures ShareFrom(a, 0, i) == Ratio(c[i], Total(c)) {
      ShareIsRatio(c, 0, i);
      assert c[0..] == c;
    }
    forall q: nat | q < |c| ensures KError(c, k, q) == -1 <==> Load(left[q], a[q]) <= 1.0 {
      ErrorIsOverfull(c, k, q);
    }
  }

  // ---- the probabilities as the policy computes them ----

  /** The quotient stored for disk v. */
  lemma StoredQuotient(disks: seq<RSDisk>, v: nat)
    requires IsAligned(disks) && Positive(AlignedOf(disks)) && v < |disks|
    ensures disks[v].checkC.num >= 0 && disks[v].checkC.den > 0
    ensures Value(disks[v].checkC) == Quotients(AlignedOf(disks))[v] > 0.0
  {
    TotalPositive(AlignedOf(disks)[v..]);
    QuotientsAreShares(AlignedOf(disks));
  }

  /** The disks carry the quotients a. */
  ghost predicate Carry(disks: seq<RSDisk>, a: seq<real>) {
    |disks| == |a| && forall v | 0 <= v < |a| :: Carries(disks[v], a[v])
  }

  ghost predicate Carries(disk: RSDisk, x: real) {
    disk.checkC.num >= 0 && disk.checkC.den > 0 && Value(disk.checkC) == x
  }

  lemma AlignedDisksCarry(disks: seq<RSDisk>)
    requires IsAligned(disks) && Positive(AlignedOf(disks))
    ensures Carry(disks, Quotients(AlignedOf(disks)))
  {
    forall v | 0 <= v < |disks| ensures Carries(disks[v], Quotients(AlignedOf(disks))[v]) {
      StoredQuotient(disks, v);
    }
  }

  function MissFactor(l: nat, a: real): real { 1.0 - Load(l, a) }

  /**
   The probability that the disks a, ..., b - 1 all miss the copy with l left. A factor that would be
   negative, of a disk asked for more than a whole copy, counts as zero.
   */
  method P(disks: seq<RSDisk>, a: nat, b: nat, l: nat) returns (result: real)
    requires IsAligned(disks) && Positive(AlignedOf(disks)) && b <= |disks|
    ensures Shares(Quotients(AlignedOf(disks)))
    ensures result == if a > b then 0.0 else Missed(Quotients(AlignedOf(disks)), l, a, b)
  {
    ghost var s := Quotients(AlignedOf(disks));
    QuotientsAreShares(AlignedOf(disks));
    if a > b { return 0.0; }
    if a == b { return 1.0; }
    StoredQuotient(disks, b - 1);
    if Load(l, Value(disks[b-1].checkC)) > 1.0 {
      MissedBehindFull(s, l, a, b);
      return 0.0;
    }
    result := 1.0;
    var v := b;
    while v > a
      invariant a <= v <= b && result >= 0.0
      invariant Missed(s, l, a, b) == Times(Missed(s, l, a, v), result)
    {
      StoredQuotient(disks, v - 1);
      FactorStep(s, l, a, v, result);
      result := Times(result, MissFactor(l, Value(disks[v-1].checkC)));
      v := v - 1;
      if result < 0.0 { return 0.0; }
    }
  }

  lemma {:induction false} MissedBehindFull(s: seq<real>, l: nat, a: nat, b: nat)
    requires Shares(s) && a < b <= |s| && Load(l, s[b-1]) > 1.0
    ensures Missed(s, l, a, b) == 0.0
  {
    assert Accept(s[b-1], l) == 1.0;
  }

  /** Moving one factor from the rest of the product to the result. */
  lemma FactorStep(s: seq<real>, l: nat, a: nat, v: nat, result: real)
    requires Shares(s) && a < v <= |s| && result >= 0.0
    ensures var next := Times(result, MissFactor(l, s[v-1]));
            if next < 0.0 then Times(Missed(s, l, a, v), result) == 0.0
            else Times(Missed(s, l, a, v), result) == Times(Missed(s, l, a, v - 1), next)
  {
    var load, m := Load(l, s[v-1]), Missed(s, l, a, v - 1);
    assert Missed(s, l, a, v) == Times(m, 1.0 - Accept(s[v-1], l));
    if load <= 1.0 {
      assert 1.0 - Accept(s[v-1], l) == 1.0 - load;
      Commute(m, 1.0 - load, result);
      NonNegative(result, 1.0 - load);
    } else {
      assert Accept(s[v-1], l) == 1.0;
      NotPositive(m, result, 1.0 - load);
    }
  }

  lemma Commute(m: real, f: real, r: real)
    ensures Times(Times(m, f), r) == Times(m, Times(r, f))
  {
  }

  lemma NotPositive(m: real, r: real, f: real)
    requires r >= 0.0 && f < 0.0
    ensures Times(Times(m, 0.0), r) == 0.0
    ensures Times(r, f) < 0.0 || Times(m, Times(r, f)) == 0.0
  {
    if r > 0.0 { PositiveProduct(r, -f); }
  }

  /** The probability that the copy with m left, searched from disk j on, is placed on disk i. */
  method RInner(disks: seq<RSDisk>, m: nat, j: nat, i: nat) returns (result: real)
    requires IsAligned(disks) && Positive(AlignedOf(disks)) && i < |disks|
    ensures Shares(Quotients(AlignedOf(disks)))
    ensures result == if j > i then 0.0 else Landing(Quotients(AlignedOf(disks)), m, j, i)
  {
    StoredQuotient(disks, i);
    result := Load(m, Value(disks[i].checkC));
    if result > 1.0 { result := 1.0; }
    var p := P(disks, j, i, m);
    LandingProduct(Quotients(AlignedOf(disks)), m, j, i, result, p);
    result := Times(result, p);
  }

  lemma {:induction false} LandingProduct(s: seq<real>, m: nat, j: nat, i: nat, accept: real, missed: real)
    requires Shares(s) && i < |s| && accept == Accept(s[i], m)
    requires missed == if j > i then 0.0 else Missed(s, m, j, i)
    ensures Times(accept, missed) == if j > i then 0.0 else Landing(s, m, j, i)
  {
  }

  // ---- the documented product ----

  /** The product of the factors 1 - l * a[v] of the disks j, ..., i - 1. */
  function Factor(a: seq<real>, l: nat, j: nat, i: nat): real
    requires j <= i <= |a|
    decreases i - j
  {
    if i == j then 1.0 else Times(Factor(a, l, j, i - 1), MissFactor(l, a[i-1]))
  }

  /** P as its documentation has it: the plain product, or 0 if that is negative. */
  function DocumentedP(a: seq<real>, l: nat, j: nat, i: nat): real
    requires j <= i <= |a|
  {
    if Factor(a, l, j, i) < 0.0 then 0.0 else Factor(a, l, j, i)
  }

  /** How many of the disks j, ..., i - 1 are asked for more than a whole copy. */
  function Overfull(a: seq<real>, l: nat, j: nat, i: nat): nat
    requires j <= i <= |a|
    decreases i - j
  {
    if i == j then 0 else Overfull(a, l, j, i - 1) + (if Load(l, a[i-1]) > 1.0 then 1 else 0)
  }

  /**
   The documented product is what the code computes exactly when some disk is asked for just one copy,
   or when none or an odd number of them is asked for more.
   */
  lemma {:induction false} DocumentedPAgrees(a: seq<real>, l: nat, j: nat, i: nat)
    requires Shares(a) && j <= i <= |a|
    ensures DocumentedP(a, l, j, i) == Missed(a, l, j, i)
       <==> (|| (exists v | j <= v < i :: Load(l, a[v]) == 1.0)
             || Overfull(a, l, j, i) == 0
             || Overfull(a, l, j, i) % 2 == 1)
  {
    if v: nat :| j <= v < i && Load(l, a[v]) == 1.0 {
      FactorOfFull(a, l, j, i, v);
    } else {
      FactorSign(a, l, j, i);
      if Overfull(a, l, j, i) == 0 {
        NoneOverfull(a, l, j, i);
        FactorOfFitting(a, l, j, i);
      } else {
        var v := SomeOverfull(a, l, j, i);
        MissedBehindOverfull(a, l, j, i, v);
      }
    }
  }

  lemma {:induction false} FactorOfFull(a: seq<real>, l: nat, j: nat, i: nat, v: nat)
    requires Shares(a) && j <= v < i <= |a| && Load(l, a[v]) == 1.0
    ensures Factor(a, l, j, i) == 0.0 == Missed(a, l, j, i)
    decreases i
  {
    MissedBehindOverfull(a, l, j, i, v);
    if v < i - 1 {
      FactorOfFull(a, l, j, i - 1, v);
      ZeroTimes(MissFactor(l, a[i-1]));
    } else {
      TimesZero(Factor(a, l, j, i - 1));
    }
  }

  /** Every disk that is asked for more than a copy turns the sign of the product. */
  lemma {:induction false} FactorSign(a: seq<real>, l: nat, j: nat, i: nat)
    requires Shares(a) && j <= i <= |a| && forall v | j <= v < i :: Load(l, a[v]) != 1.0
    ensures if Overfull(a, l, j, i) % 2 == 0 then Factor(a, l, j, i) > 0.0 else Factor(a, l, j, i) < 0.0
    decreases i
  {
    if j < i {
      FactorSign(a, l, j, i - 1);
      assert Load(l, a[i-1]) != 1.0;
      ProductSign(Factor(a, l, j, i - 1), MissFactor(l, a[i-1]));
    }
  }

  lemma ProductSign(x: real, y: real)
    requires x != 0.0 && y != 0.0
    ensures Times(x, y) != 0.0 && (Times(x, y) > 0.0 <==> (x > 0.0) == (y > 0.0))
  {
    if x > 0.0 {
      if y > 0.0 { PositiveProduct(x, y); } else { PositiveProduct(x, -y); }
    } else {
      if y > 0.0 { PositiveProduct(-x, y); } else { PositiveProduct(-x, -y); }
    }
  }

  lemma {:induction false} NoneOverfull(a: seq<real>, l: nat, j: nat, i: nat)
    requires j <= i <= |a| && Overfull(a, l, j, i) == 0
    ensures forall v | j <= v < i :: Load(l, a[v]) <= 1.0
    decreases i
  {
    if j < i { NoneOverfull(a, l, j, i - 1); }
  }

  lemma SomeOverfull(a: seq<real>, l: nat, j: nat, i: nat) returns (v: nat)
    requires j <= i <= |a| && Overfull(a, l, j, i) > 0
    ensures j <= v < i && Load(l, a[v]) > 1.0
    decreases i
  {
    if Load(l, a[i-1]) > 1.0 {
      v := i - 1;
    } else {
      v := SomeOverfull(a, l, j, i - 1);
    }
  }

  lemma {:induction false} FactorOfFitting(a: seq<real>, l: nat, j: nat, i: nat)
    requires Shares(a) && j <= i <= |a| && forall v | j <= v < i :: Load(l, a[v]) <= 1.0
    ensures Factor(a, l, j, i) == Missed(a, l, j, i) >= 0.0
    decreases i
  {
    if j < i {
      FactorOfFitting(a, l, j, i - 1);
      assert Load(l, a[i-1]) <= 1.0;
      assert Missed(a, l, j, i) == Times(Missed(a, l, j, i - 1), 1.0 - Accept(a[i-1], l));
    }
  }

  lemma {:induction false} MissedBehindOverfull(a: seq<real>, l: nat, j: nat, i: nat, v: nat)
    requires Shares(a) && j <= v < i <= |a| && Load(l, a[v]) >= 1.0
    ensures Missed(a, l, j, i) == 0.0
    decreases i
  {
    assert Missed(a, l, j, i) == Times(Missed(a, l, j, i - 1), 1.0 - Accept(a[i-1], l));
    if v < i - 1 {
      MissedBehindOverfull(a, l, j, i - 1, v);
      ZeroTimes(1.0 - Accept(a[i-1], l));
    } else {
      TimesZero(Missed(a, l, j, i - 1));
    }
  }

  /**
   Three copies on disks of capacities that fit them: the second and the third disk are asked for more
   than a copy once the first has been passed, so the documented product is positive, and the code returns zero.
   */
  lemma DocumentedPDiffers()
    ensures var c: seq<nat> := [6, 6, 4, 3, 3, 1];
            && Fits(c, 3) && Positive(c) && Shares(Quotients(c))
            && DocumentedP(Quotients(c), 3, 0, 3) == 5.0 / 4301.0 && Missed(Quotients(c), 3, 0, 3) == 0.0
  {
    var c: seq<nat> := [6, 6, 4, 3, 3, 1];
    var a := Quotients(c);
    QuotientsAreShares(c);
    assert c[0..] == c && c[1..][1..] == c[2..] && c[2..][1..] == c[3..];
    assert c[3..] == [3, 3, 1] && [3, 3, 1][1..] == [3, 1] && [3, 1][1..] == [1] && [1][1..] == [];
    assert Total([1]) == 1 && Total([3, 1]) == 4 && Total(c[3..]) == 7;
    assert Total(c[2..]) == 11 && Total(c[1..]) == 17 && Total(c) == 23;
    assert a[0] == 6.0 / 23.0 && a[1] == 6.0 / 17.0 && a[2] == 4.0 / 11.0;
    assert Factor(a, 3, 0, 0) == 1.0 && Factor(a, 3, 0, 1) == 5.0 / 23.0;
    assert Factor(a, 3, 0, 2) == -5.0 / 391.0;
    assert Factor(a, 3, 0, 3) == 5.0 / 4301.0;
    MissedBehindOverfull(a, 3, 0, 3, 1);
  }
}
