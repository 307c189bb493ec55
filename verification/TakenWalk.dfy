/**
 The walk with the thresholds that are stored: each lets through the probability that the exact walk
 asks for, up to one hash value of 2^64, so the loads it gives are the exact ones up to one hash value
 per disk.
 */
module TakenWalk {
  import opened Arithmetic
  import opened Disks
  import opened Capacities
  import opened RedundantShare
  import opened Probabilities
  import opened ExactWalk

  /** The number of hash values. */
  const HASHES: real := 0x1_0000_0000_0000_0000 as real

  predicate Accepts(h: nat, hash: nat) { !(hash > h) }

  /** A disk with threshold h accepts h + 1 hash values. */
  lemma AcceptedCount(h: nat)
    requires h <= MAX_UINT64
    ensures |set x: nat | x <= MAX_UINT64 && Accepts(h, x)| == h + 1
  {
    UpToCount(h);
    assert (set x: nat | x <= MAX_UINT64 && Accepts(h, x)) == UpTo(h);
  }

  function UpTo(n: nat): set<nat> {
    if n == 0 then {0} else UpTo(n - 1) + {n}
  }

  lemma {:induction false} UpToCount(n: nat)
    ensures (forall x: nat :: x in UpTo(n) <==> x <= n) && |UpTo(n)| == n + 1
  {
    if n > 0 { UpToCount(n - 1); }
  }

  /** The part of the hash range that disk q accepts for the copy with l left. */
  function Chance(w: Tables, q: nat, l: nat): real
    requires q < |w.hashValues| && 0 < l <= |w.hashValues[q]|
  {
    (w.hashValues[q][l-1] + 1) as real / HASHES
  }

  /** A stored threshold is the exact probability of the walk in the hash range, up to less than one. */
  lemma ThresholdIsAccept(disks: seq<RSDisk>, k: nat, w: Tables, q: nat, l: nat)
    requires Configured(disks, k, w) && Positive(AlignedOf(disks)) && q < |disks| && 0 < l <= k
    ensures |w.hashValues[q]| == k && Quotient(AlignedOf(disks), q) > 0.0
    ensures var h, p := w.hashValues[q][l-1], Accept(Quotient(AlignedOf(disks), q), l);
            h <= MAX_UINT64 && h as real <= p * MAX_UINT64 as real < (h + 1) as real
  {
    var c := AlignedOf(disks);
    var a, s, h := c[q], Total(c[q..]), w.hashValues[q][l-1];
    TotalPositive(c[q..]);
    RatioPositive(a, s);
    assert HashRow(w.hashValues[q], disks[q], k) && disks[q].cPosition == s && IsThreshold(h, a, s, l);
    FullShareSaturates(h, a, s, l);
    LoadAgainstOne(l, a, s);
    if l * a < s { BelowFull(h, a, s, l); }
  }

  lemma BelowFull(h: nat, a: nat, s: nat, l: nat)
    requires s > 0 && h * s <= (l * a) * MAX_UINT64 < (h + 1) * s
    ensures h as real <= Load(l, Ratio(a, s)) * MAX_UINT64 as real < (h + 1) as real
  {
    var p, m, t := Load(l, Ratio(a, s)), MAX_UINT64 as real, s as real;
    RatioScales(a, s);
    ScaledLoad(l as real, Ratio(a, s), t, a as real);
    CastProduct(l, a);
    CastProduct(l * a, MAX_UINT64);
    CastProduct(h, s);
    CastProduct(h + 1, s);
    MoveFactor(p, m, t, (l * a) as real);
    UnscaleOrder(h as real, p * m, t);
    UnscaleOrder((h + 1) as real, p * m, t);
  }

  lemma MoveFactor(p: real, m: real, t: real, x: real)
    requires p * t == x
    ensures (p * m) * t == x * m
  {
    assert (p * m) * t == (p * t) * m;
  }

  /** At most one hash value more or less than the exact probability asks for. */
  ghost predicate WithinOne(chance: real, p: real) {
    -1.0 <= (chance - p) * HASHES <= 1.0
  }

  lemma ChanceIsAccept(disks: seq<RSDisk>, k: nat, w: Tables, q: nat, l: nat)
    requires Configured(disks, k, w) && Positive(AlignedOf(disks)) && q < |disks| && 0 < l <= k
    ensures |w.hashValues[q]| == k && Quotient(AlignedOf(disks), q) > 0.0
    ensures 0.0 <= Chance(w, q, l) <= 1.0
    ensures WithinOne(Chance(w, q, l), Accept(Quotient(AlignedOf(disks), q), l))
  {
    ThresholdIsAccept(disks, k, w, q, l);
    var h, p := w.hashValues[q][l-1], Accept(Quotient(AlignedOf(disks), q), l);
    OneOff(h, p, Chance(w, q, l));
  }

  lemma OneOff(h: nat, p: real, c: real)
    requires h <= MAX_UINT64 && 0.0 <= p <= 1.0 && h as real <= p * MAX_UINT64 as real < (h + 1) as real
    requires c == (h + 1) as real / HASHES
    ensures 0.0 <= c <= 1.0 && WithinOne(c, p)
  {
    assert p * HASHES == p * MAX_UINT64 as real + p;
    assert c * HASHES == (h + 1) as real == h as real + 1.0;
    assert (c - p) * HASHES == c * HASHES - p * HASHES;
  }

  // ---- expected loads ----

  /** Chances for every disk and every number of copies left. */
  ghost predicate Chances(w: Tables) {
    && (forall q | 0 <= q < |w.hashValues| :: |w.hashValues[q]| == |w.errorValues|)
    && (forall q, l | 0 <= q < |w.hashValues| && 0 < l <= |w.errorValues| :: 0.0 <= Chance(w, q, l) <= 1.0)
  }

  /**
   The expected number of copies on disk i, when the walk with the stored thresholds reaches disk q with
   l copies left and the hashes are uniform and independent.
   */
  ghost function ExpectedTaken(w: Tables, q: nat, l: nat, i: nat): real
    requires Chances(w) && q <= |w.hashValues| && l <= |w.errorValues|
    decreases |w.hashValues| - q
  {
    if q == |w.hashValues| || l == 0 then 0.0
    else
      Mix(Chance(w, q, l), (if i == q then 1.0 else 0.0) + ExpectedTaken(w, q + 1, l - 1, i),
          ExpectedTaken(w, q + 1, l, i))
  }

  /** No disk gets more than one copy. */
  lemma {:induction false} AtMostOneCopy(w: Tables, q: nat, l: nat, i: nat)
    requires Chances(w) && q <= |w.hashValues| && l <= |w.errorValues|
    ensures 0.0 <= ExpectedTaken(w, q, l, i) <= 1.0 && (i < q ==> ExpectedTaken(w, q, l, i) == 0.0)
    decreases |w.hashValues| - q
  {
    if q < |w.hashValues| && l > 0 {
      AtMostOneCopy(w, q + 1, l - 1, i);
      AtMostOneCopy(w, q + 1, l, i);
      assert 0.0 <= Chance(w, q, l) <= 1.0;
      MixInUnit(Chance(w, q, l), (if i == q then 1.0 else 0.0) + ExpectedTaken(w, q + 1, l - 1, i),
          ExpectedTaken(w, q + 1, l, i));
    }
  }

  lemma MixInUnit(p: real, x: real, y: real)
    requires 0.0 <= p <= 1.0 && 0.0 <= x <= 1.0 && 0.0 <= y <= 1.0
    ensures 0.0 <= Mix(p, x, y) <= 1.0
    ensures x == 0.0 && y == 0.0 ==> Mix(p, x, y) == 0.0
  {
    NonNegative(p, x);
    NonNegative(1.0 - p, y);
    NonNegative(p, 1.0 - x);
    NonNegative(1.0 - p, 1.0 - y);
  }

  /** The two expectations differ by at most n hash values. */
  ghost predicate Within(x: real, y: real, n: nat) {
    -(n as real) <= (x - y) * HASHES <= n as real
  }

  /** The chances are the exact probabilities up to one hash value. */
  ghost predicate Approximates(w: Tables, a: seq<real>) {
    && Shares(a) && |a| == |w.hashValues| && Chances(w)
    && forall q, l | 0 <= q < |a| && 0 < l <= |w.errorValues| :: WithinOne(Chance(w, q, l), Accept(a[q], l))
  }

  /** One hash value per disk is all that the stored thresholds change. */
  lemma {:induction false} LoadsAgree(w: Tables, a: seq<real>, q: nat, l: nat, i: nat)
    requires Approximates(w, a) && q <= |a| && l <= |w.errorValues|
    ensures Within(ExpectedTaken(w, q, l, i), Expected(a, q, l, i), |a| - q)
    decreases |a| - q
  {
    if q < |a| && l > 0 {
      LoadsAgree(w, a, q + 1, l - 1, i);
      LoadsAgree(w, a, q + 1, l, i);
      AtMostOneCopy(w, q + 1, l - 1, i);
      AtMostOneCopy(w, q + 1, l, i);
      assert WithinOne(Chance(w, q, l), Accept(a[q], l));
      var own := if i == q then 1.0 else 0.0;
      MixAgrees(Chance(w, q, l), Accept(a[q], l), own + ExpectedTaken(w, q + 1, l - 1, i),
          ExpectedTaken(w, q + 1, l, i),
          own + Expected(a, q + 1, l - 1, i), Expected(a, q + 1, l, i), |a| - q - 1);
    }
  }

  lemma MixAgrees(c: real, p: real, x: real, y: real, u: real, v: real, n: nat)
    requires WithinOne(c, p) && 0.0 <= p <= 1.0 && 0.0 <= x <= 1.0 && 0.0 <= y <= 1.0
    requires Within(x, u, n) && Within(y, v, n)
    ensures Within(Mix(c, x, y), Mix(p, u, v), n + 1)
  {
    var d, e, f := (c - p) * HASHES, (x - u) * HASHES, (y - v) * HASHES;
    MixParts(c, p, x, y, u, v, HASHES);
    UnitTimes(d, x - y);
    MixBetween(p, e, f, n as real);
  }

  /** How a mean changes with its weight and its values, in units of 1 / h. */
  lemma MixParts(c: real, p: real, x: real, y: real, u: real, v: real, h: real)
    ensures (Mix(c, x, y) - Mix(p, u, v)) * h == Times((c - p) * h, x - y) + Mix(p, (x - u) * h, (y - v) * h)
  {
    MixWeight(c, p, x, y);
    MixDifference(p, u, v, x, y);
    TimesScale(c - p, x - y, h);
    MixScale(p, x - u, y - v, h);
    SumTimes(Times(c - p, x - y), Mix(p, x - u, y - v), h);
  }

  lemma SumTimes(a: real, b: real, h: real)
    ensures (a + b) * h == a * h + b * h
  {
  }

  lemma MixWeight(c: real, p: real, x: real, y: real)
    ensures Mix(c, x, y) - Mix(p, x, y) == Times(c - p, x - y)
  {
    assert (c - p) * (x - y) == (c - p) * x - (c - p) * y;
  }

  lemma TimesScale(a: real, z: real, h: real)
    ensures Times(a, z) * h == Times(a * h, z)
  {
  }

  lemma MixScale(p: real, a: real, b: real, h: real)
    ensures Mix(p, a, b) * h == Mix(p, a * h, b * h)
  {
    assert (p * a) * h == p * (a * h);
    assert ((1.0 - p) * b) * h == (1.0 - p) * (b * h);
  }

  lemma UnitTimes(d: real, z: real)
    requires -1.0 <= d <= 1.0 && -1.0 <= z <= 1.0
    ensures -1.0 <= Times(d, z) <= 1.0
  {
    if d >= 0.0 {
      PartTimes(d, z);
    } else {
      PartTimes(-d, z);
      assert -d * z == -(d * z);
    }
  }

  lemma PartTimes(d: real, z: real)
    requires 0.0 <= d <= 1.0 && -1.0 <= z <= 1.0
    ensures -1.0 <= d * z <= 1.0
  {
    NonNegative(d, 1.0 - z);
    NonNegative(d, 1.0 + z);
    assert d * (1.0 - z) == d - d * z;
    assert d * (1.0 + z) == d + d * z;
  }

  lemma MixBetween(p: real, e: real, f: real, n: real)
    requires 0.0 <= p <= 1.0 && -n <= e <= n && -n <= f <= n
    ensures -n <= Mix(p, e, f) <= n
  {
    NonNegative(p, n - e);
    NonNegative(p, n + e);
    NonNegative(1.0 - p, n - f);
    NonNegative(1.0 - p, n + f);
  }

  lemma ConfiguredApproximates(disks: seq<RSDisk>, k: nat, w: Tables)
    requires Configured(disks, k, w) && Positive(AlignedOf(disks))
    ensures |w.errorValues| == k && Approximates(w, Quotients(AlignedOf(disks)))
  {
    var c := AlignedOf(disks);
    assert w.left[0] == Remaining(c, k, 0);
    QuotientsAreShares(c);
    forall q, l | 0 <= q < |disks| && 0 < l <= k
      ensures |w.hashValues[q]| == k && 0.0 <= Chance(w, q, l) <= 1.0
      ensures WithinOne(Chance(w, q, l), Accept(Quotient(c, q), l))
    {
      ChanceIsAccept(disks, k, w, q, l);
    }
  }

  /**
   If the scan marks no disk, the walk with the stored thresholds gives every disk k times its part of the
   capacity, up to one hash value of 2^64 per disk.
   */
  lemma TakenWalkIsFair(disks: seq<RSDisk>, k: nat, w: Tables, i: nat)
    requires Configured(disks, k, w) && Positive(AlignedOf(disks)) && i < |disks|
    requires forall q | 0 <= q < |disks| :: disks[q].kError == -1
    ensures var c := AlignedOf(disks);
            && Total(c) > 0 && Chances(w) && |w.errorValues| == k
            && Within(ExpectedTaken(w, 0, k, i), Load(k, Ratio(c[i], Total(c))), |disks|)
  {
    var c := AlignedOf(disks);
    var a := Quotients(c);
    ConfiguredApproximates(disks, k, w);
    UnmarkedIsFair(disks, k, w);
    FairTaken(w, a, k, i, Load(k, Ratio(c[i], Total(c))));
  }

  lemma FairTaken(w: Tables, a: seq<real>, k: nat, i: nat, load: real)
    requires Approximates(w, a) && k <= |w.errorValues| && Expected(a, 0, k, i) == load
    ensures Within(ExpectedTaken(w, 0, k, i), load, |a|)
  {
    LoadsAgree(w, a, 0, k, i);
  }

  /** Then no copy meets a corrected threshold. */
  lemma NoCorrection(disks: seq<RSDisk>, k: nat, w: Tables)
    requires Configured(disks, k, w) && w.kErrors == KErrorsOf(disks)
    requires forall q | 0 <= q < |disks| :: disks[q].kError == -1
    ensures |w.errorValues| == k
    ensures forall q, l, start: nat | 0 <= q < |disks| && 0 < l <= k && l <= |w.hashValues[q]| ::
            Threshold(w, q, l, start) == w.hashValues[q][l-1]
  {
    assert w.left[0] == Remaining(AlignedOf(disks), k, 0);
  }

  lemma UnmarkedIsFair(disks: seq<RSDisk>, k: nat, w: Tables)
    requires Configured(disks, k, w) && Positive(AlignedOf(disks)) && disks != []
    requires forall q | 0 <= q < |disks| :: disks[q].kError == -1
    ensures var c := AlignedOf(disks);
            && Total(c) > 0 && Shares(Quotients(c))
            && forall i: nat | i < |c| :: Expected(Quotients(c), 0, k, i) == Load(k, Ratio(c[i], Total(c)))
  {
    var c := AlignedOf(disks);
    FairExactlyWithoutErrors(c, k);
    forall q: nat | q < |c| ensures KError(c, k, q) == -1 { assert disks[q].kError == -1; }
  }
}
