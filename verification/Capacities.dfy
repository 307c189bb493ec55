/**
 The capacity arithmetic of Redundant Share, on the list of capacities in placement order: clipping
 capacities that are too large for k copies, and the scan that says by which disk each copy is placed.
 */
module Capacities {
  import opened Arithmetic

  /** c[0] + ... + c[|c|-1]; the suffix sum from q is Total(c[q..]). */
  function Total(c: seq<nat>): nat {
    if c == [] then 0 else c[0] + Total(c[1..])
  }

  lemma TotalSuffix(c: seq<nat>, q: nat)
    requires q < |c|
    ensures Total(c[q..]) == c[q] + Total(c[q+1..])
  {
    assert c[q..][1..] == c[q+1..];
  }

  ghost predicate Descending(c: seq<nat>) {
    forall i, j | 0 <= i < j < |c| :: c[i] >= c[j]
  }

  // ---- clipping ----

  /**
   The usable capacity of one disk: at most the i-th part of what the disks after it can hold
   together (no limit when i <= 0). The comparison looks at the low 32 bits of the capacity only.
   */
  function AlignedStep(capacity: nat, behind: nat, i: int): nat {
    if i <= 0 || capacity % TWO_TO_THE_32 < behind / i then capacity else behind / i
  }

  /** The step is the intended minimum exactly when the truncated comparison does not let a too large capacity pass. */
  lemma AlignedStepIsMinimum(capacity: nat, behind: nat, i: int)
    requires i > 0
    ensures AlignedStep(capacity, behind, i) == Min(capacity, behind / i)
       <==> !(capacity % TWO_TO_THE_32 < behind / i < capacity)
    ensures capacity < TWO_TO_THE_32 ==> AlignedStep(capacity, behind, i) == Min(capacity, behind / i)
  {
    assert capacity < TWO_TO_THE_32 ==> capacity % TWO_TO_THE_32 == capacity;
    assert capacity % TWO_TO_THE_32 <= capacity;
  }

  /** Clips from the last disk to the first; the first disk of `caps` may hold an i-th part of the rest. */
  function Aligned(caps: seq<nat>, i: int): (c: seq<nat>)
    ensures |c| == |caps|
  {
    if caps == [] then []
    else
      var rest := Aligned(caps[1..], i - 1);
      [AlignedStep(caps[0], Total(rest), i)] + rest
  }

  ghost predicate Positive(c: seq<nat>) {
    forall j | 0 <= j < |c| :: c[j] >= 1
  }

  lemma {:induction false} TotalPositive(c: seq<nat>)
    requires c != [] && Positive(c)
    ensures Total(c) > 0
  {
  }

  /** At disk q the truncated comparison lets a too large capacity pass, when the first disk may hold an i-th part. */
  ghost predicate SlipsAt(caps: seq<nat>, i: int, q: nat) {
    && q < |caps| && q < i
    && caps[q] % TWO_TO_THE_32 < Total(Aligned(caps[q+1..], i - q - 1)) / (i - q) < caps[q]
  }

  ghost predicate NeverSlips(caps: seq<nat>, i: int) {
    forall q: nat | q < |caps| :: !SlipsAt(caps, i, q)
  }

  /** Capacities that the low 32 bits hold never slip. */
  lemma SmallNeverSlips(caps: seq<nat>, i: int)
    requires forall j | 0 <= j < |caps| :: caps[j] < TWO_TO_THE_32
    ensures NeverSlips(caps, i)
  {
  }

  lemma SlipsInTail(caps: seq<nat>, i: int, q: nat)
    requires q + 1 < |caps|
    ensures SlipsAt(caps[1..], i - 1, q) <==> SlipsAt(caps, i, q + 1)
  {
    assert caps[1..][q+1..] == caps[q+2..];
    assert i - 1 - q == i - (q + 1);
  }

  lemma NeverSlipsInTail(caps: seq<nat>, i: int)
    requires caps != [] && NeverSlips(caps, i)
    ensures NeverSlips(caps[1..], i - 1)
  {
    var tail, m := caps[1..], i - 1;
    forall q: nat | q < |tail| ensures !SlipsAt(tail, m, q) {
      SlipsInTail(caps, i, q);
    }
  }

  /** Whatever the comparison lets pass, clipping enlarges no disk and leaves every disk something. */
  lemma {:induction false} AlignedBounds(caps: seq<nat>, i: int)
    requires Positive(caps) && i < |caps|
    ensures Positive(Aligned(caps, i)) && Total(Aligned(caps, i)) >= |caps|
    ensures forall j | 0 <= j < |caps| :: Aligned(caps, i)[j] <= caps[j]
  {
    if caps != [] {
      AlignedBounds(caps[1..], i - 1);
      var behind := Total(Aligned(caps[1..], i - 1));
      if i > 0 { QuotientPositive(behind, i); }
      assert caps[0] % TWO_TO_THE_32 <= caps[0];
    }
  }

  lemma QuotientPositive(a: nat, b: int)
    requires 0 < b <= a
    ensures a / b >= 1
  {
    DivisionBounds(a, b);
    if a / b < 1 { MulMonotone(a / b, 0, b); }
  }

  /** No disk would have to hold more than one of m copies of everything, seen from every position below m. */
  ghost predicate FitsFrom(c: seq<nat>, m: int) {
    forall q: nat | q < |c| && q < m :: FitsAt(c, m, q)
  }

  ghost predicate FitsAt(c: seq<nat>, m: int, q: nat)
    requires q < |c|
  {
    (m - q) * c[q] <= Total(c[q..])
  }

  lemma FitsAtShift(c: seq<nat>, m: int, q: nat)
    requires q + 1 < |c|
    ensures FitsAt(c, m, q + 1) <==> FitsAt(c[1..], m - 1, q)
  {
    assert c[1..][q..] == c[q+1..];
    assert m - (q + 1) == m - 1 - q;
  }

  /** k copies of everything fit fairly: no disk is asked for more than a k-th of the total. */
  ghost predicate Fits(c: seq<nat>, k: nat) {
    forall j | 0 <= j < |c| :: k * c[j] <= Total(c)
  }

  lemma FitsFromTail(c: seq<nat>, m: int)
    requires c != [] && FitsFrom(c, m)
    ensures FitsFrom(c[1..], m - 1)
  {
    var tail, n := c[1..], m - 1;
    forall q: nat | q < |tail| && q < n ensures FitsAt(tail, n, q) {
      assert FitsAt(c, m, q + 1);
      FitsAtShift(c, m, q);
    }
  }

  lemma {:induction false} FitsFromHead(c: seq<nat>, m: int)
    requires c != [] && FitsFrom(c[1..], m - 1) && (m > 0 ==> m * c[0] <= Total(c))
    ensures FitsFrom(c, m)
  {
    forall q: nat | q < |c| && q < m ensures FitsAt(c, m, q) {
      if q == 0 {
        assert c[0..] == c;
      } else {
        assert FitsAt(c[1..], m - 1, q - 1);
        FitsAtShift(c, m, q - 1);
      }
    }
  }

  /** Clipping that never slips keeps the order, and leaves capacities that fit from every position. */
  lemma {:induction false} AlignedFits(caps: seq<nat>, i: int)
    requires Positive(caps) && Descending(caps) && i < |caps| && NeverSlips(caps, i)
    ensures Descending(Aligned(caps, i)) && FitsFrom(Aligned(caps, i), i + 1)
  {
    if caps != [] {
      NeverSlipsInTail(caps, i);
      AlignedFits(caps[1..], i - 1);
      AlignedBounds(caps[1..], i - 1);
      var rest := Aligned(caps[1..], i - 1);
      var c := Aligned(caps, i);
      assert !SlipsAt(caps, i, 0);
      AlignedStepIsSound(caps[0], rest, i);
      assert c[1..] == rest;
      DescendingHead(caps, c);
      FitsFromHead(c, i + 1);
    }
  }

  lemma Overfills(a: nat, s: nat, i: nat)
    requires i > 0 && s / i < a
    ensures (i + 1) * a > a + s
  {
    DivisionBounds(s, i);
    MulMonotone(s / i + 1, a, i);
    assert (i + 1) * a == i * a + a;
  }

  /** A disk that slips is left too large for the copies that must fit from it on. */
  lemma {:induction false} SlipOverfills(caps: seq<nat>, i: int, q: nat)
    requires SlipsAt(caps, i, q)
    ensures !FitsFrom(Aligned(caps, i), i + 1)
  {
    if q == 0 {
      FirstOverfills(caps, i);
    } else {
      var c := Aligned(caps, i);
      assert c[1..] == Aligned(caps[1..], i - 1);
      SlipsInTail(caps, i, q - 1);
      SlipOverfills(caps[1..], i - 1, q - 1);
      if FitsFrom(c, i + 1) { FitsFromTail(c, i + 1); }
    }
  }

  lemma FirstOverfills(caps: seq<nat>, i: int)
    requires SlipsAt(caps, i, 0)
    ensures !FitsFrom(Aligned(caps, i), i + 1)
  {
    var c, rest := Aligned(caps, i), Aligned(caps[1..], i - 1);
    assert c[0..] == c && c[1..] == rest;
    Overfills(c[0], Total(rest), i);
    assert !FitsAt(c, i + 1, 0);
  }

  /** The clipped capacities fit k copies exactly when the truncated comparison never lets a too large one pass. */
  lemma AlignedFitsExactly(caps: seq<nat>, k: nat)
    requires Positive(caps) && Descending(caps) && 0 < k <= |caps|
    ensures Fits(Aligned(caps, k - 1), k) <==> NeverSlips(caps, k - 1)
  {
    var c := Aligned(caps, k - 1);
    FitsIffFitsFrom(c, k);
    if NeverSlips(caps, k - 1) {
      AlignedFits(caps, k - 1);
    } else {
      SlipsDoNotFit(caps, k - 1);
    }
  }

  lemma SlipsDoNotFit(caps: seq<nat>, i: nat)
    requires Positive(caps) && Descending(caps) && i < |caps| && !NeverSlips(caps, i)
    ensures !FitsFrom(Aligned(caps, i), i + 1)
  {
    var q: nat :| q < |caps| && SlipsAt(caps, i, q);
    SlipOverfills(caps, i, q);
  }

  lemma DescendingHead(caps: seq<nat>, c: seq<nat>)
    requires c != [] && |c| == |caps| && Descending(c[1..]) && (|c| > 1 ==> c[0] >= c[1])
    ensures Descending(c)
  {
    forall i, j | 0 <= i < j < |c| ensures c[i] >= c[j] {
      if i > 0 { assert c[1..][i-1] >= c[1..][j-1]; }
      if j > 1 { assert c[1..][0] >= c[1..][j-1]; }
    }
  }

  /** One clipping step in front of a list that already fits. */
  lemma {:induction false} AlignedStepIsSound(capacity: nat, rest: seq<nat>, i: int)
    requires FitsFrom(rest, i)
    requires i > 0 ==> !(capacity % TWO_TO_THE_32 < Total(rest) / i < capacity)
    ensures var a := AlignedStep(capacity, Total(rest), i);
            && (i >= 0 ==> (i + 1) * a <= a + Total(rest))
            && (i > 0 && rest != [] && rest[0] <= capacity ==> rest[0] <= a)
  {
    var behind := Total(rest);
    if i > 0 {
      AlignedStepIsMinimum(capacity, behind, i);
      StepFits(AlignedStep(capacity, behind, i), behind, i);
      if rest != [] {
        assert FitsAt(rest, i, 0) && rest[0..] == rest;
        HeadFits(rest[0], behind, i);
      }
    }
  }

  lemma StepFits(a: nat, behind: nat, i: int)
    requires i > 0 && a <= behind / i
    ensures (i + 1) * a <= a + behind
  {
    DivisionBounds(behind, i);
    MulMonotone(a, behind / i, i);
    assert (i + 1) * a == i * a + a;
  }

  lemma HeadFits(a: nat, behind: nat, i: int)
    requires i > 0 && i * a <= behind
    ensures a <= behind / i
  {
    DivisionBounds(behind, i);
    if a > behind / i { MulMonotone(behind / i + 1, a, i); }
  }

  lemma DivisionBounds(a: nat, b: int)
    requires b > 0
    ensures (a / b) * b <= a < (a / b + 1) * b
  {
  }

  lemma DivideBelow(a: nat, r: nat, i: int)
    requires i > 0 && (i + 1) * a <= a + r
    ensures a <= r / i
  {
    assert (i + 1) * a == i * a + a;
    DivisionBounds(r, i);
    if a > r / i { MulMonotone(r / i + 1, a, i); }
  }

  /**
   The clipped capacities are the greatest ones that fit: anything below the given capacities that fits is
   below them.
   */
  lemma {:induction false} AlignedIsGreatest(caps: seq<nat>, i: int, c: seq<nat>)
    requires |c| == |caps| && FitsFrom(c, i + 1)
    requires forall j | 0 <= j < |c| :: c[j] <= caps[j]
    ensures forall j | 0 <= j < |c| :: c[j] <= Aligned(caps, i)[j]
    ensures Total(c) <= Total(Aligned(caps, i))
  {
    if caps != [] {
      FitsFromTail(c, i + 1);
      AlignedIsGreatest(caps[1..], i - 1, c[1..]);
      var rest := Aligned(caps[1..], i - 1);
      if i > 0 {
        assert FitsAt(c, i + 1, 0) && c[0..] == c;
        DivideBelow(c[0], Total(rest), i);
      }
      forall j | 0 <= j < |c| ensures c[j] <= Aligned(caps, i)[j] {
        if j > 0 { assert c[j] == c[1..][j-1]; }
      }
    }
  }

  /** Fitting from every position is the same as fitting as a whole, for capacities in descending order. */
  lemma FitsIffFitsFrom(c: seq<nat>, k: nat)
    requires 0 < k <= |c|
    ensures Fits(c, k) ==> FitsFrom(c, k)
    ensures Descending(c) && FitsFrom(c, k) ==> Fits(c, k)
  {
    if Fits(c, k) {
      forall q: nat | q < |c| && q < k ensures FitsAt(c, k, q) {
        PrefixShare(c, k, Total(c), q);
        SuffixShare(k, q, c[q], Total(c), Total(c[q..]));
      }
    }
    if Descending(c) && FitsFrom(c, k) {
      assert FitsAt(c, k, 0) && c[0..] == c;
      forall j | 0 <= j < |c| ensures k * c[j] <= Total(c) {
        MulMonotone(c[j], c[0], k);
      }
    }
  }

  lemma SuffixShare(k: nat, q: nat, a: nat, t: nat, s: nat)
    requires q < k && k * a <= t && k * (t - s) <= q * t
    ensures (k - q) * a <= s
  {
    var r := k - q;
    MulMonotone(k * a, t, r);
    assert (k * a) * r == k * (r * a);
    assert t * r == k * t - q * t;
    assert k * (t - s) == k * t - k * s;
    CancelFactor(r * a, s, k);
  }

  lemma CancelFactor(a: int, b: int, k: int)
    requires k > 0 && k * a <= k * b
    ensures a <= b
  {
  }

  /** The first q disks of fitting capacities hold at most q k-ths of the total. */
  lemma {:induction false} PrefixShare(c: seq<nat>, k: nat, t: nat, q: nat)
    requires q <= |c| && forall j | 0 <= j < |c| :: k * c[j] <= t
    ensures k * (Total(c) - Total(c[q..])) <= q * t
  {
    if q == 0 {
      assert c[0..] == c;
    } else {
      PrefixShare(c, k, t, q - 1);
      TotalSuffix(c, q - 1);
      PrefixStep(k, t, q, Total(c) - Total(c[q-1..]), c[q-1]);
    }
  }

  lemma PrefixStep(k: nat, t: nat, q: nat, p: int, a: nat)
    requires q > 0 && k * p <= (q - 1) * t && k * a <= t
    ensures k * (p + a) <= q * t
  {
    assert k * (p + a) == k * p + k * a;
    assert q * t == (q - 1) * t + t;
  }

  /** Capacities as the placement needs them. */
  ghost predicate Good(c: seq<nat>, k: nat) {
    0 < k <= |c| && Descending(c) && Positive(c) && k * c[0] <= Total(c)
  }

  /**
   What aligning is for: the clipped capacities are at least as great as any choice below the given
   ones that fits k copies; and they fit themselves unless the truncated comparison slips.
   */
  lemma {:induction false} AlignedIsGreatestFit(caps: seq<nat>, k: nat, other: seq<nat>)
    requires Positive(caps) && Descending(caps) && 0 < k <= |caps|
    requires |other| == |caps| && Fits(other, k) && forall j | 0 <= j < |other| :: other[j] <= caps[j]
    ensures forall j | 0 <= j < |caps| :: other[j] <= Aligned(caps, k - 1)[j] <= caps[j]
    ensures Fits(Aligned(caps, k - 1), k) <==> NeverSlips(caps, k - 1)
  {
    AlignedBounds(caps, k - 1);
    AlignedFitsExactly(caps, k);
    assert FitsFrom(other, k) by { FitsIffFitsFrom(other, k); }
    AlignedIsGreatest(caps, k - 1, other);
  }

  /** Capacities fit exactly when aligning changes nothing and does not slip either. */
  lemma {:induction false} AlignedUnchanged(caps: seq<nat>, k: nat)
    requires Positive(caps) && Descending(caps) && 0 < k <= |caps|
    ensures Fits(caps, k) <==> Aligned(caps, k - 1) == caps && NeverSlips(caps, k - 1)
  {
    AlignedFitsExactly(caps, k);
    if Fits(caps, k) { FittingStays(caps, k); }
  }

  lemma {:induction false} FittingStays(caps: seq<nat>, k: nat)
    requires Positive(caps) && Descending(caps) && 0 < k <= |caps| && Fits(caps, k)
    ensures Aligned(caps, k - 1) == caps
  {
    var c := Aligned(caps, k - 1);
    AlignedIsGreatestFit(caps, k, caps);
    assert forall j | 0 <= j < |c| :: c[j] == caps[j];
  }

  /** Clipped capacities are as the placement needs them exactly when no comparison slips. */
  lemma AlignedGood(caps: seq<nat>, k: nat)
    requires Positive(caps) && Descending(caps) && 0 < k <= |caps|
    ensures Good(Aligned(caps, k - 1), k) <==> NeverSlips(caps, k - 1)
  {
    var c := Aligned(caps, k - 1);
    AlignedBounds(caps, k - 1);
    AlignedFitsExactly(caps, k);
    if NeverSlips(caps, k - 1) { AlignedFits(caps, k - 1); }
    if Good(c, k) {
      forall j | 0 <= j < |c| ensures k * c[j] <= Total(c) {
        MulMonotone(c[j], c[0], k);
      }
    }
  }

  /** With a capacity of 2^32 the truncated comparison lets it through: two copies no longer fit. */
  lemma AlignedTruncates()
    ensures Aligned([TWO_TO_THE_32, 1], 1) == [TWO_TO_THE_32, 1]
    ensures !Fits(Aligned([TWO_TO_THE_32, 1], 1), 2)
  {
    var caps := [TWO_TO_THE_32, 1];
    assert caps[1..] == [1] && [1][1..] == [];
    assert Aligned([1], 0) == [1];
    assert Total([1]) == 1;
    assert Aligned(caps, 1) == caps;
    assert Total(caps) == TWO_TO_THE_32 + 1;
    assert caps[0] == TWO_TO_THE_32;
  }

  /** Three disks whose first is clipped correctly behind one that slips: the scan ends with a copy left. */
  lemma ScanLosesCopy()
    ensures Descending([0x1_FFFF_FFFF, TWO_TO_THE_32, 1])
    ensures Aligned([0x1_FFFF_FFFF, TWO_TO_THE_32, 1], 2) == [0x8000_0000, TWO_TO_THE_32, 1]
    ensures Remaining([0x8000_0000, TWO_TO_THE_32, 1], 3, 3) == 1
  {
    var caps := [0x1_FFFF_FFFF, TWO_TO_THE_32, 1];
    AlignedTruncates();
    assert caps[1..] == [TWO_TO_THE_32, 1];
    var c: seq<nat> := [0x8000_0000, TWO_TO_THE_32, 1];
    assert c[1..] == [TWO_TO_THE_32, 1] && c[2..] == [1] && c[0..] == c;
    assert [TWO_TO_THE_32, 1][1..] == [1] && [1][1..] == [];
    assert Total([1]) == 1 && Total(c[1..]) == TWO_TO_THE_32 + 1 && Total(c) == 0x8000_0000 + TWO_TO_THE_32 + 1;
    assert Aligned(caps, 2) == c;
    assert Remaining(c, 3, 1) == 3;
    assert Remaining(c, 3, 2) == 2;
    assert Remaining(c, 3, 3) == 1;
  }

  // ---- the scan ----

  /** One step of the scan at a disk of capacity a, where the disks from there on hold s together. */
  function ScanNext(l: nat, a: nat, s: nat): nat {
    if l > 0 && l * a >= s then l - 1 else l
  }

  /**
   Copies still to be placed when the scan reaches disk q: one is dropped wherever l copies fill a disk's
   whole share.
   */
  function Remaining(c: seq<nat>, k: nat, q: nat): nat
    requires q <= |c|
  {
    if q == 0 then k else ScanNext(Remaining(c, k, q - 1), c[q-1], Total(c[q-1..]))
  }

  /** The scan never has more copies left than disks, so it ends with none. */
  lemma {:induction false} RemainingBound(c: seq<nat>, k: nat, q: nat)
    requires k <= |c| && Descending(c) && q <= |c|
    ensures Remaining(c, k, q) <= |c| - q
  {
    if q > 0 {
      RemainingBound(c, k, q - 1);
      LargestShare(c[q-1..]);
    }
  }

  lemma {:induction false} LargestShare(c: seq<nat>)
    requires c != [] && Descending(c)
    ensures Total(c) <= |c| * c[0]
  {
    if |c| > 1 {
      LargestShare(c[1..]);
      MulMonotone(c[1], c[0], |c| - 1);
      assert |c| * c[0] == (|c| - 1) * c[0] + c[0];
    } else {
      assert c[1..] == [];
    }
  }

  lemma {:induction false} RemainingSteps(c: seq<nat>, k: nat, p: nat, q: nat)
    requires p <= q <= |c|
    ensures Remaining(c, k, q) <= Remaining(c, k, p)
    decreases q
  {
    if p < q { RemainingSteps(c, k, p, q - 1); }
  }

  /** One copy fewer than the scan has left never overfills a disk. */
  lemma {:induction false} OneFewerFits(c: seq<nat>, k: nat, q: nat)
    requires Good(c, k) && q < |c|
    ensures OneSpare(Remaining(c, k, q), c[q], Total(c[q..]))
  {
    assert c[0..] == c;
    OneFewerStart(k, c[0], Total(c));
    OneFewer(c, k, q);
  }

  lemma OneFewerStart(k: nat, a: nat, s: nat)
    requires k > 0 && k * a <= s
    ensures OneSpare(k, a, s)
  {
  }

  lemma {:induction false} OneFewer(c: seq<nat>, k: nat, q: nat)
    requires Descending(c) && q < |c| && OneSpare(k, c[0], Total(c[0..]))
    ensures OneSpare(Remaining(c, k, q), c[q], Total(c[q..]))
  {
    if q > 0 {
      OneFewer(c, k, q - 1);
      TotalSuffix(c, q - 1);
      ScanStep(Remaining(c, k, q - 1), c[q-1], c[q], Total(c[q-1..]));
    }
  }

  /** One copy fewer than l, of a block of size a each, fits into s. */
  ghost predicate OneSpare(l: nat, a: nat, s: nat) {
    (l - 1) * a <= s
  }

  lemma ScanStep(l: nat, a: nat, b: nat, s: nat)
    requires b <= a <= s && OneSpare(l, a, s)
    ensures OneSpare(ScanNext(l, a, s), b, s - a)
  {
    var l' := ScanNext(l, a, s);
    assert (l - 1) * a == (l - 2) * a + a;
    assert l * a == (l - 1) * a + a;
    if l' >= 1 {
      MulMonotone(b, a, l' - 1);
    }
  }
}
