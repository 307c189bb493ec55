/**
 The walk of Redundant Share with exact probabilities. a[q] is the share that disk q has among the
 disks from q on; with l copies left disk q takes the copy with probability l * a[q], at most 1.
 */
module Probabilities {
  import opened Arithmetic
  /** What l copies would put on a disk with share a. */
  function Load(l: nat, a: real): real { l as real * a }

  /** The probability that a disk with share a takes the copy with l left. */
  function Accept(a: real, l: nat): (p: real)
    requires a > 0.0
    ensures 0.0 <= p <= 1.0
  {
    NonNegative(l as real, a);
    if Load(l, a) < 1.0 then Load(l, a) else 1.0
  }

  ghost predicate Shares(a: seq<real>) {
    forall q | 0 <= q < |a| :: a[q] > 0.0
  }

  /** The probability that none of the disks j, ..., i - 1 takes the copy. */
  function Missed(a: seq<real>, l: nat, j: nat, i: nat): (p: real)
    requires Shares(a) && j <= i <= |a|
    ensures 0.0 <= p <= 1.0
    decreases i - j
  {
    if j == i then 1.0
    else
      var rest := Missed(a, l, j, i - 1);
      ProductInUnit(rest, 1.0 - Accept(a[i-1], l));
      rest * (1.0 - Accept(a[i-1], l))
  }

  lemma ProductInUnit(x: real, y: real)
    requires 0.0 <= x <= 1.0 && 0.0 <= y <= 1.0
    ensures 0.0 <= x * y <= 1.0
  {
    NonNegative(x, y);
    NonNegative(1.0 - x, y);
  }

  /** The probability that the walk of this copy, beginning at disk j, ends at disk i. */
  function Landing(a: seq<real>, l: nat, j: nat, i: nat): real
    requires Shares(a) && j <= i < |a|
  {
    Missed(a, l, j, i) * Accept(a[i], l)
  }

  /** Landing on one of the disks j, ..., i - 1, summed. */
  function LandingSum(a: seq<real>, l: nat, j: nat, i: nat): real
    requires Shares(a) && j <= i <= |a|
    decreases i
  {
    if i == j then 0.0 else LandingSum(a, l, j, i - 1) + Landing(a, l, j, i - 1)
  }

  lemma {:induction false} LandedOrMissed(a: seq<real>, l: nat, j: nat, i: nat)
    requires Shares(a) && j <= i <= |a|
    ensures LandingSum(a, l, j, i) + Missed(a, l, j, i) == 1.0
    decreases i
  {
    if j < i {
      LandedOrMissed(a, l, j, i - 1);
      SplitByAccept(Missed(a, l, j, i - 1), Accept(a[i-1], l));
    }
  }

  lemma SplitByAccept(m: real, p: real)
    ensures m * p + m * (1.0 - p) == m
  {
  }

  /** The copy lands on exactly one of the disks up to one that takes its full share. */
  lemma {:induction false} LandingsSumToOne(a: seq<real>, l: nat, j: nat, last: nat)
    requires Shares(a) && j <= last < |a| && Load(l, a[last]) >= 1.0
    ensures LandingSum(a, l, j, last + 1) == 1.0
    ensures Landing(a, l, j, last) == Missed(a, l, j, last)
  {
    LandedOrMissed(a, l, j, last + 1);
    assert Missed(a, l, j, last + 1) == Missed(a, l, j, last) * (1.0 - Accept(a[last], l));
  }

  // ---- the scan ----

  /** left[q] copies are left at disk q, and one is dropped at every disk that fills up. */
  ghost predicate Scanned(a: seq<real>, left: seq<nat>) {
    |left| == |a| + 1 && forall q | 0 <= q < |a| :: ScannedAt(a[q], left[q], left[q+1])
  }

  ghost predicate ScannedAt(a: real, l: nat, next: nat) {
    next == if Load(l, a) >= 1.0 then l - 1 else l
  }

  /** No disk would have to take more than a whole copy. */
  ghost predicate NeverOverfull(a: seq<real>, left: seq<nat>)
    requires |left| > |a|
  {
    forall q | 0 <= q < |a| :: Load(left[q], a[q]) <= 1.0
  }

  // ---- fairness ----

  /** The expected number of copies on disk i, when the walk reaches disk q with l copies left. */
  function Expected(a: seq<real>, q: nat, l: nat, i: nat): real
    requires Shares(a) && q <= |a|
    decreases |a| - q
  {
    if q == |a| || l == 0 then 0.0
    else
      Mix(Accept(a[q], l), (if i == q then 1.0 else 0.0) + Expected(a, q + 1, l - 1, i), Expected(a, q + 1, l, i))
  }

  /** A share u of what a disk with share a leaves over. */
  function Behind(a: real, u: real): real { (1.0 - a) * u }

  /** The share of disk i among the disks from q on. */
  function ShareFrom(a: seq<real>, q: nat, i: nat): (r: real)
    requires q <= i < |a|
    decreases i - q
  {
    if q == i then a[i] else Behind(a[q], ShareFrom(a, q + 1, i))
  }

  lemma {:induction false} NoLoadBehind(a: seq<real>, q: nat, l: nat, i: nat)
    requires Shares(a) && i < q <= |a|
    ensures Expected(a, q, l, i) == 0.0
    decreases |a| - q
  {
    if q < |a| && l > 0 {
      NoLoadBehind(a, q + 1, l - 1, i);
      NoLoadBehind(a, q + 1, l, i);
    }
  }

  /** The load of the first disk is what it accepts. */
  lemma {:induction false} FirstLoad(a: seq<real>, q: nat, l: nat)
    requires Shares(a) && q < |a| && l > 0
    ensures Expected(a, q, l, q) == Accept(a[q], l)
  {
    NoLoadBehind(a, q + 1, l - 1, q);
    NoLoadBehind(a, q + 1, l, q);
  }

  /** Fair loads u behind a disk with share a mix to a fair load seen from that disk. */
  lemma FairLoadsMix(a: real, l: nat, u: real)
    requires a > 0.0 && l > 0 && Load(l, a) <= 1.0
    ensures Mix(Accept(a, l), Load(l - 1, u), Load(l, u)) == Load(l, Behind(a, u))
  {
    assert (l - 1) as real == l as real - 1.0;
    MixTerms(l as real, a, u);
  }

  lemma MixTerms(l: real, a: real, u: real)
    ensures (l * a) * ((l - 1.0) * u) + (1.0 - l * a) * (l * u) == l * ((1.0 - a) * u)
  {
    var v := l * u;
    assert (l - 1.0) * u == v - u;
    var p := l * a;
    assert p * (v - u) + (1.0 - p) * v == v - p * u;
    assert p * u == a * v;
    assert l * ((1.0 - a) * u) == v - a * v;
  }

  lemma MixDifference(p: real, e1: real, e2: real, f1: real, f2: real)
    ensures Mix(p, f1, f2) - Mix(p, e1, e2) == Mix(p, f1 - e1, f2 - e2)
  {
  }

  lemma MixNonNegative(p: real, x: real, y: real)
    requires 0.0 <= p <= 1.0 && 0.0 <= x && (p == 1.0 || 0.0 <= y)
    ensures 0.0 <= Mix(p, x, y)
    ensures (if p == 1.0 then 0.0 < x else 0.0 < y) ==> 0.0 < Mix(p, x, y)
  {
    NonNegative(p, x);
    if p == 1.0 {
      assert Mix(1.0, x, y) == x;
    } else {
      PositiveProduct(1.0 - p, y);
    }
  }

  lemma MixMonotone(p: real, e1: real, e2: real, f1: real, f2: real)
    requires 0.0 <= p <= 1.0 && e1 <= f1 && (p == 1.0 || e2 <= f2)
    ensures Mix(p, e1, e2) <= Mix(p, f1, f2)
    ensures (if p == 1.0 then e1 < f1 else e2 < f2) ==> Mix(p, e1, e2) < Mix(p, f1, f2)
  {
    MixDifference(p, e1, e2, f1, f2);
    MixNonNegative(p, f1 - e1, f2 - e2);
  }

  /** What the scan says at a disk that is not overfull, for a walk that comes with l of its copies. */
  lemma AtFittingDisk(a: real, l: nat, left: nat, next: nat)
    requires a > 0.0 && 0 < l <= left && Load(left, a) <= 1.0 && ScannedAt(a, left, next)
    ensures Load(l, a) <= 1.0 && l - 1 <= next && (l <= next || Accept(a, l) == 1.0)
    ensures l == left ==> next == if Accept(a, l) == 1.0 then l - 1 else l
  {
    LoadMonotone(l, left, a);
  }

  lemma LoadMonotone(l: nat, m: nat, a: real)
    requires a > 0.0 && l <= m
    ensures Load(l, a) <= Load(m, a)
  {
    NonNegative((m - l) as real, a);
    assert (m - l) as real == m as real - l as real;
  }

  /** Without overfull disks every disk gets its fair load, from any point of the walk on. */
  lemma {:induction false} FairFrom(a: seq<real>, left: seq<nat>, q: nat, l: nat, i: nat)
    requires Shares(a) && Scanned(a, left) && NeverOverfull(a, left) && q <= i < |a| && l <= left[q]
    ensures Expected(a, q, l, i) == Load(l, ShareFrom(a, q, i))
    decreases i - q
  {
    if l > 0 {
      assert ScannedAt(a[q], left[q], left[q+1]);
      AtFittingDisk(a[q], l, left[q], left[q+1]);
      if i == q {
        FirstLoad(a, q, l);
      } else {
        FairFrom(a, left, q + 1, l - 1, i);
        if l <= left[q+1] { FairFrom(a, left, q + 1, l, i); }
        FairLoadsMix(a[q], l, ShareFrom(a, q + 1, i));
      }
    }
  }

  /** An overfull disk o, the first one, gets less than its fair load if all the scan's copies come along. */
  lemma {:induction false} ShortFrom(a: seq<real>, left: seq<nat>, o: nat, q: nat, l: nat)
    requires Shares(a) && Scanned(a, left) && q <= o < |a| && l <= left[q]
    requires Load(left[o], a[o]) > 1.0 && forall p | 0 <= p < o :: Load(left[p], a[p]) <= 1.0
    ensures Expected(a, q, l, o) <= Load(l, ShareFrom(a, q, o))
    ensures l == left[q] ==> Expected(a, q, l, o) < Load(l, ShareFrom(a, q, o))
    decreases o - q
  {
    if l == 0 {
      LeftComesDown(a, left, q, o);
    } else if q == o {
      FirstLoad(a, o, l);
    } else {
      assert ScannedAt(a[q], left[q], left[q+1]);
      AtFittingDisk(a[q], l, left[q], left[q+1]);
      ShortFrom(a, left, o, q + 1, l - 1);
      if l <= left[q+1] { ShortFrom(a, left, o, q + 1, l); }
      ShortStep(a, o, q, l);
    }
  }

  lemma {:induction false} LeftComesDown(a: seq<real>, left: seq<nat>, q: nat, o: nat)
    requires Scanned(a, left) && q <= o <= |a|
    ensures left[o] <= left[q]
    decreases o
  {
    if q < o {
      LeftComesDown(a, left, q, o - 1);
      assert ScannedAt(a[o-1], left[o-1], left[o]);
    }
  }

  lemma ShortStep(a: seq<real>, o: nat, q: nat, l: nat)
    requires Shares(a) && q < o < |a| && l > 0 && Load(l, a[q]) <= 1.0
    requires Expected(a, q + 1, l - 1, o) <= Load(l - 1, ShareFrom(a, q + 1, o))
    requires Accept(a[q], l) == 1.0 || Expected(a, q + 1, l, o) <= Load(l, ShareFrom(a, q + 1, o))
    ensures Expected(a, q, l, o) <= Load(l, ShareFrom(a, q, o))
    ensures (if Accept(a[q], l) == 1.0 then Expected(a, q + 1, l - 1, o) < Load(l - 1, ShareFrom(a, q + 1, o))
             else Expected(a, q + 1, l, o) < Load(l, ShareFrom(a, q + 1, o)))
            ==> Expected(a, q, l, o) < Load(l, ShareFrom(a, q, o))
  {
    var u := ShareFrom(a, q + 1, o);
    var p, e1, e2 := Accept(a[q], l), Expected(a, q + 1, l - 1, o), Expected(a, q + 1, l, o);
    FairLoadsMix(a[q], l, u);
    MixMonotone(p, e1, e2, Load(l - 1, u), Load(l, u));
  }

  /**
   The walk is fair, giving every disk i an expected load of k times its share of the whole, exactly
   when the scan finds no disk that would have to take more than a whole copy.
   */
  lemma {:induction false} FairIffNeverOverfull(a: seq<real>, left: seq<nat>)
    requires Shares(a) && Scanned(a, left)
    ensures (forall i: nat | i < |a| :: Expected(a, 0, left[0], i) == Load(left[0], ShareFrom(a, 0, i)))
       <==> NeverOverfull(a, left)
  {
    if NeverOverfull(a, left) {
      forall i: nat | i < |a| ensures Expected(a, 0, left[0], i) == Load(left[0], ShareFrom(a, 0, i)) {
        FairFrom(a, left, 0, left[0], i);
      }
    } else {
      var q: nat :| q < |a| && Load(left[q], a[q]) > 1.0;
      var o := FirstOverfull(a, left, q);
      ShortFrom(a, left, o, 0, left[0]);
    }
  }

  lemma {:induction false} FirstOverfull(a: seq<real>, left: seq<nat>, q: nat) returns (o: nat)
    requires |left| > |a| && q < |a| && Load(left[q], a[q]) > 1.0
    ensures o <= q && Load(left[o], a[o]) > 1.0 && forall p | 0 <= p < o :: Load(left[p], a[p]) <= 1.0
  {
    if p: nat :| p < q && Load(left[p], a[p]) > 1.0 {
      o := FirstOverfull(a, left, p);
    } else {
      o := q;
    }
  }
}
