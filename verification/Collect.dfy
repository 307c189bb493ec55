/**
 Collecting free space: both strategies sweep the segments in address order and take blocks from
 each old partition until its quota is used up.
 */
module Collect {
  import opened Arithmetic
  import opened Sequences
  import opened Sums
  import opened Blocks
  import opened FreeSpace
  import opened SegmentTree

  function Excess(a: nat, b: nat): nat { if a > b then a - b else 0 }

  /** State of a sweep that has treated every block below L. */
  ghost predicate Swept(owners: seq<nat>, quotas: map<nat, nat>, free: seq<Interval>, left: map<nat, nat>, L: nat) {
    && L <= |owners|
    && Separated(free, L)
    && InSpace(BlocksOf(free), |owners|)
    && left.Keys == quotas.Keys
    && (forall p | p in quotas :: left[p] == Excess(quotas[p], Count(owners, 0, L, p)))
    && (forall p | p in quotas :: Held(owners, BlocksOf(free), p) + left[p] == quotas[p])
    && |BlocksOf(free)| + SumMap(left) == SumMap(quotas)
  }

  lemma SweptStart(owners: seq<nat>, quotas: map<nat, nat>)
    ensures Swept(owners, quotas, [], quotas, 0)
  {
  }

  /** Taking [lo, hi) out of the segment [a, b) of partition p. */
  lemma SweptTake(owners: seq<nat>, quotas: map<nat, nat>, free: seq<Interval>, left: map<nat, nat>,
                  a: nat, b: nat, p: nat, lo: nat, hi: nat)
    requires Swept(owners, quotas, free, left, a) && a < b && OwnedBy(owners, a, b, p)
    requires p in quotas && a <= lo < hi <= b && hi - lo == Min(left[p], b - a)
    ensures Swept(owners, quotas, AddInterval(free, lo, hi), left[p := left[p] - (hi - lo)], b)
  {
    var left' := left[p := left[p] - (hi - lo)];
    SweptSums(owners, quotas, free, left, a, b, p, lo, hi);
    forall id | id in quotas
      ensures left'[id] == Excess(quotas[id], Count(owners, 0, b, id))
      ensures Held(owners, BlocksOf(AddInterval(free, lo, hi)), id) + left'[id] == quotas[id]
    {
      SweptTakeFrom(owners, quotas, free, left, a, b, p, lo, hi, id);
    }
  }

  /** Taking [lo, hi) keeps the list in order, and what is collected and what is left in balance. */
  lemma SweptSums(owners: seq<nat>, quotas: map<nat, nat>, free: seq<Interval>, left: map<nat, nat>,
                  a: nat, b: nat, p: nat, lo: nat, hi: nat)
    requires Swept(owners, quotas, free, left, a) && b <= |owners|
    requires p in quotas && a <= lo < hi <= b && hi - lo <= left[p]
    ensures var free', left' := AddInterval(free, lo, hi), left[p := left[p] - (hi - lo)];
            && Separated(free', b) && InSpace(BlocksOf(free'), |owners|)
            && |BlocksOf(free')| + SumMap(left') == SumMap(quotas)
  {
    AddIntervalKeeps(free, a, lo, hi, b);
    AddIntervalAppends(free, a, lo, hi);
    SumMapUpdate(left, p, left[p] - (hi - lo));
    SeparatedMembers(AddInterval(free, lo, hi), b);
  }

  /** What taking [lo, hi) leaves to collect from one disk. */
  lemma SweptTakeFrom(owners: seq<nat>, quotas: map<nat, nat>, free: seq<Interval>, left: map<nat, nat>,
                      a: nat, b: nat, p: nat, lo: nat, hi: nat, id: nat)
    requires Swept(owners, quotas, free, left, a) && a < b && OwnedBy(owners, a, b, p)
    requires p in quotas && id in quotas && a <= lo < hi <= b && hi - lo == Min(left[p], b - a)
    ensures InSpace(BlocksOf(AddInterval(free, lo, hi)), |owners|)
    ensures var left' := left[p := left[p] - (hi - lo)];
            && left'[id] == Excess(quotas[id], Count(owners, 0, b, id))
            && Held(owners, BlocksOf(AddInterval(free, lo, hi)), id) + left'[id] == quotas[id]
  {
    AddIntervalKeeps(free, a, lo, hi, b);
    SeparatedMembers(AddInterval(free, lo, hi), b);
    CountSplit(owners, 0, a, b, id);
    CountUniform(owners, a, b, p, id);
    CountUniform(owners, lo, hi, p, id);
    AddIntervalHeld(owners, free, lo, hi, id);
  }

  /** Passing over a segment whose partition has nothing left to give. */
  lemma SweptSkip(owners: seq<nat>, quotas: map<nat, nat>, free: seq<Interval>, left: map<nat, nat>, a: nat, b: nat,
                  p: nat)
    requires Swept(owners, quotas, free, left, a) && a < b && OwnedBy(owners, a, b, p)
    requires p in quotas && left[p] == 0
    ensures Swept(owners, quotas, free, left, b)
  {
    forall id | id in quotas ensures left[id] == Excess(quotas[id], Count(owners, 0, b, id)) {
      CountSplit(owners, 0, a, b, id);
      CountUniform(owners, a, b, p, id);
    }
  }

  /** The plain strategy takes a block exactly when fewer than quota blocks of its owner precede it. */
  ghost predicate TakesFirst(owners: seq<nat>, quotas: map<nat, nat>, x: nat)
    requires x < |owners|
  {
    owners[x] in quotas && Count(owners, 0, x, owners[x]) < quotas[owners[x]]
  }

  lemma {:induction false} TakesFirstIn(owners: seq<nat>, quotas: map<nat, nat>, a: nat, b: nat, p: nat, x: nat)
    requires OwnedBy(owners, a, b, p) && p in quotas && a <= x < b
    ensures TakesFirst(owners, quotas, x) <==> x - a < Excess(quotas[p], Count(owners, 0, a, p))
  {
    CountSplit(owners, 0, a, x, p);
    CountUniform(owners, a, x, p, p);
  }

  /** How the even-odd strategy treats segment i. */
  datatype Cut = Kept | Complete | Partial

  ghost function CutOf(leaves: seq<Leaf>, owners: seq<nat>, quotas: map<nat, nat>, i: nat): Cut
    requires Represents(leaves, owners) && i < |leaves| - 1 && leaves[i].value in quotas
  {
    SegmentBounds(leaves, owners, i);
    var p := leaves[i].value;
    var due := Excess(quotas[p], Count(owners, 0, leaves[i].key, p));
    if due == 0 then Kept else if leaves[i+1].key - leaves[i].key < due then Complete else Partial
  }

  lemma SegmentBounds(leaves: seq<Leaf>, owners: seq<nat>, i: nat)
    requires Represents(leaves, owners) && i < |leaves| - 1
    ensures leaves[i].key < leaves[i+1].key <= |owners|
    ensures OwnedBy(owners, leaves[i].key, leaves[i+1].key, leaves[i].value)
  {
  }

  /**
   The strategy's two flags before segment i: cut the next segment at its tail, and "the last segment went
   completely".
   */
  ghost function Flags(leaves: seq<Leaf>, owners: seq<nat>, quotas: map<nat, nat>, i: nat): (f: (bool, bool))
    requires Represents(leaves, owners) && i < |leaves|
    requires forall k | 0 <= k < |leaves| - 1 :: leaves[k].value in quotas
  {
    if i == 0 then (false, false)
    else
      var (even, lastComplete) := Flags(leaves, owners, quotas, i - 1);
      match CutOf(leaves, owners, quotas, i - 1)
      case Kept => (even, lastComplete)
      case Complete => (even && !lastComplete, true)
      case Partial => (!even, false)
  }

  ghost predicate Known(leaves: seq<Leaf>, owners: seq<nat>, quotas: map<nat, nat>) {
    Represents(leaves, owners) && forall k | 0 <= k < |leaves| - 1 :: leaves[k].value in quotas
  }

  /** The last segment before i that was cut at all went completely. */
  ghost predicate AfterComplete(leaves: seq<Leaf>, owners: seq<nat>, quotas: map<nat, nat>, i: nat)
    requires Known(leaves, owners, quotas) && i < |leaves|
  {
    exists h: nat :: h < i && CutOf(leaves, owners, quotas, h) == Complete
        && KeptBetween(leaves, owners, quotas, h + 1, i)
  }

  ghost predicate KeptBetween(leaves: seq<Leaf>, owners: seq<nat>, quotas: map<nat, nat>, lo: nat, hi: nat)
    requires Known(leaves, owners, quotas) && hi < |leaves|
  {
    forall m | lo <= m < hi :: CutOf(leaves, owners, quotas, m) == Kept
  }

  /** Segment i and the last cut one before it both went completely. */
  ghost predicate TwoComplete(leaves: seq<Leaf>, owners: seq<nat>, quotas: map<nat, nat>, i: nat)
    requires Known(leaves, owners, quotas) && i < |leaves| - 1
  {
    CutOf(leaves, owners, quotas, i) == Complete && AfterComplete(leaves, owners, quotas, i)
  }

  ghost predicate NeverTwoComplete(leaves: seq<Leaf>, owners: seq<nat>, quotas: map<nat, nat>, lo: nat, hi: nat)
    requires Known(leaves, owners, quotas) && hi < |leaves|
  {
    forall m | lo <= m < hi :: !TwoComplete(leaves, owners, quotas, m)
  }

  ghost function PartialCuts(leaves: seq<Leaf>, owners: seq<nat>, quotas: map<nat, nat>, lo: nat, hi: nat): nat
    requires Known(leaves, owners, quotas) && lo <= hi < |leaves|
    decreases hi
  {
    if lo == hi then 0
    else
      PartialCuts(leaves, owners, quotas, lo, hi - 1) + (if CutOf(leaves, owners, quotas, hi - 1) == Partial then 1
          else 0)
  }

  lemma {:induction false} SecondFlag(leaves: seq<Leaf>, owners: seq<nat>, quotas: map<nat, nat>, i: nat)
    requires Known(leaves, owners, quotas) && i < |leaves|
    ensures Flags(leaves, owners, quotas, i).1 <==> AfterComplete(leaves, owners, quotas, i)
  {
    if i > 0 {
      SecondFlag(leaves, owners, quotas, i - 1);
      if AfterComplete(leaves, owners, quotas, i - 1) && CutOf(leaves, owners, quotas, i - 1) == Kept {
        var h: nat :| h < i - 1 && CutOf(leaves, owners, quotas, h) == Complete
                      && KeptBetween(leaves, owners, quotas, h + 1, i - 1);
        assert KeptBetween(leaves, owners, quotas, h + 1, i);
      }
      if CutOf(leaves, owners, quotas, i - 1) == Complete {
        assert KeptBetween(leaves, owners, quotas, i, i);
      }
      if AfterComplete(leaves, owners, quotas, i) {
        var h: nat :| h < i && CutOf(leaves, owners, quotas, h) == Complete
                      && KeptBetween(leaves, owners, quotas, h + 1, i);
        if h < i - 1 {
          assert CutOf(leaves, owners, quotas, i - 1) == Kept;
          assert KeptBetween(leaves, owners, quotas, h + 1, i - 1);
        }
      }
    }
  }

  /**
   A segment is cut at its tail after an odd number of partial cuts, counted anew whenever two segments
   in a row went completely.
   */
  lemma {:induction false} TailAfterOddCuts(leaves: seq<Leaf>, owners: seq<nat>, quotas: map<nat, nat>, r: nat, i: nat)
    requires Known(leaves, owners, quotas) && r <= i < |leaves|
    requires r == 0 || TwoComplete(leaves, owners, quotas, r - 1)
    requires NeverTwoComplete(leaves, owners, quotas, r, i)
    ensures Flags(leaves, owners, quotas, i).0 <==> Odd(PartialCuts(leaves, owners, quotas, r, i))
    decreases i
  {
    if r < i {
      assert !TwoComplete(leaves, owners, quotas, i - 1);
      TailAfterOddCuts(leaves, owners, quotas, r, i - 1);
      FlagTurns(leaves, owners, quotas, i - 1);
      CutsTurn(leaves, owners, quotas, r, i);
    } else if r > 0 {
      FlagTurns(leaves, owners, quotas, r - 1);
    }
  }

  lemma CutsTurn(leaves: seq<Leaf>, owners: seq<nat>, quotas: map<nat, nat>, r: nat, i: nat)
    requires Known(leaves, owners, quotas) && r < i < |leaves|
    ensures var before, after := PartialCuts(leaves, owners, quotas, r, i - 1),
            PartialCuts(leaves, owners, quotas, r, i);
            Odd(after) <==> if CutOf(leaves, owners, quotas, i - 1) == Partial then !Odd(before) else Odd(before)
  {
    OddNext(PartialCuts(leaves, owners, quotas, r, i - 1));
  }

  predicate Odd(n: nat) { n % 2 == 1 }

  lemma OddNext(n: nat)
    ensures Odd(n + 1) <==> !Odd(n)
  {
  }

  /** What one segment does to the first flag. */
  lemma FlagTurns(leaves: seq<Leaf>, owners: seq<nat>, quotas: map<nat, nat>, i: nat)
    requires Known(leaves, owners, quotas) && i < |leaves| - 1
    ensures var before, after := Flags(leaves, owners, quotas, i).0, Flags(leaves, owners, quotas, i + 1).0;
            && (CutOf(leaves, owners, quotas, i) == Partial ==> after == !before)
            && (TwoComplete(leaves, owners, quotas, i) ==> !after)
            && (CutOf(leaves, owners, quotas, i) != Partial && !TwoComplete(leaves, owners, quotas, i)
               ==> after == before)
  {
    SecondFlag(leaves, owners, quotas, i);
  }

  /**
   The even-odd strategy: segments are taken whole until a partition's quota runs out inside one;
   that one is cut at its head, or at its tail when the `even` flag is up and the block before the
   segment was not taken.
   */
  ghost predicate TakesEvenOdd(leaves: seq<Leaf>, owners: seq<nat>, quotas: map<nat, nat>, i: nat, x: nat)
    requires Represents(leaves, owners) && i < |leaves| - 1
    requires forall k | 0 <= k < |leaves| - 1 :: leaves[k].value in quotas
  {
    SegmentBounds(leaves, owners, i);
    var a, b, p := leaves[i].key, leaves[i+1].key, leaves[i].value;
    var due := Excess(quotas[p], Count(owners, 0, a, p));
    match CutOf(leaves, owners, quotas, i)
    case Kept => false
    case Complete => true
    case Partial =>
      if Flags(leaves, owners, quotas, i).0 && !(i > 0 && TakesEvenOdd(leaves, owners, quotas, i - 1, a - 1))
      then x >= b - due
      else x < a + due
  }

  /** Block x of segment i was collected exactly when the even-odd rule says so. */
  ghost predicate Follows(leaves: seq<Leaf>, owners: seq<nat>, quotas: map<nat, nat>, free: seq<Interval>, i: nat)
    requires Represents(leaves, owners) && i < |leaves| - 1
    requires forall k | 0 <= k < |leaves| - 1 :: leaves[k].value in quotas
  {
    forall x | leaves[i].key <= x < leaves[i+1].key ::
      InFree(free, x) <==> TakesEvenOdd(leaves, owners, quotas, i, x)
  }

  /** Whether the list ends exactly where the segment starting at a begins. */
  lemma Touches(free: seq<Interval>, a: nat)
    requires Separated(free, a)
    ensures (free != [] && free[|free|-1].hi == a) <==> (a > 0 && InFree(free, a - 1))
  {
    if free != [] && free[|free|-1].hi == a {
      assert free[|free|-1].lo <= a - 1 < free[|free|-1].hi;
    }
    if a > 0 && InFree(free, a - 1) {
      var i :| 0 <= i < |free| && free[i].lo <= a - 1 < free[i].hi;
      assert i < |free| - 1 ==> free[i].hi < free[|free|-1].lo;
    }
  }

  /** Sweep state between two segments: `low` and `pid` describe the segment still to be treated. */
  ghost predicate AtSegment(leaves: seq<Leaf>, it: nat, done: bool, low: nat, pid: nat) {
    && it < |leaves|
    && (done ==> it == |leaves| - 1 && low == leaves[it].key)
    && (!done ==>
          && low == leaves[if it == 0 then 0 else it - 1].key
          && pid == leaves[if it == 0 then 0 else it - 1].value)
  }

  /** The plain sweep before segment n. */
  ghost predicate PlainAt(leaves: seq<Leaf>, owners: seq<nat>, quotas: map<nat, nat>,
                          free: seq<Interval>, left: map<nat, nat>, n: nat) {
    && Represents(leaves, owners)
    && n < |leaves|
    && (forall k | 0 <= k < |leaves| - 1 :: leaves[k].value in quotas)
    && Swept(owners, quotas, free, left, leaves[n].key)
    && PlainTaken(owners, quotas, free, leaves[n].key)
  }

  ghost predicate PlainTaken(owners: seq<nat>, quotas: map<nat, nat>, free: seq<Interval>, L: nat) {
    L <= |owners| && forall x: nat {:trigger InFree(free, x)} | x < L ::
        InFree(free, x) <==> TakesFirst(owners, quotas, x)
  }

  /** The interval that the plain strategy takes out of [low, high): its head, as long as the quota lasts. */
  function PlainPart(due: nat, low: nat, high: nat): Interval
    requires low < high
  {
    if high - low < due then Interval(low, high) else Interval(low, low + due)
  }

  lemma PlainStep(leaves: seq<Leaf>, owners: seq<nat>, quotas: map<nat, nat>,
                  free: seq<Interval>, left: map<nat, nat>, n: nat)
    requires PlainAt(leaves, owners, quotas, free, left, n) && n < |leaves| - 1
    ensures var low, high, pid := leaves[n].key, leaves[n+1].key, leaves[n].value;
            pid in left && low < high &&
            if left[pid] == 0 then PlainAt(leaves, owners, quotas, free, left, n + 1)
            else
              var part := PlainPart(left[pid], low, high);
              part.lo < part.hi && part.hi - part.lo <= left[pid] &&
              PlainAt(leaves, owners, quotas, AddInterval(free, part.lo, part.hi),
                  left[pid := left[pid] - (part.hi - part.lo)], n + 1)
  {
    var low, high, pid := leaves[n].key, leaves[n+1].key, leaves[n].value;
    SegmentBounds(leaves, owners, n);
    PlainMembers(owners, quotas, free, low, high, pid);
    if left[pid] == 0 {
      SweptSkip(owners, quotas, free, left, low, high, pid);
    } else {
      var part := PlainPart(left[pid], low, high);
      SweptTake(owners, quotas, free, left, low, high, pid, part.lo, part.hi);
    }
  }

  lemma {:induction false} PlainMembers(owners: seq<nat>, quotas: map<nat, nat>, free: seq<Interval>, a: nat, b: nat,
                                        p: nat)
    requires a < b && OwnedBy(owners, a, b, p) && p in quotas && Separated(free, a)
    requires PlainTaken(owners, quotas, free, a)
    ensures var due := Excess(quotas[p], Count(owners, 0, a, p));
            var part := PlainPart(due, a, b);
            PlainTaken(owners, quotas, if due == 0 then free else AddInterval(free, part.lo, part.hi), b)
  {
    var due := Excess(quotas[p], Count(owners, 0, a, p));
    var part := PlainPart(due, a, b);
    var free' := if due == 0 then free else AddInterval(free, part.lo, part.hi);
    if due > 0 {
      AddIntervalKeeps(free, a, part.lo, part.hi, b);
    }
    forall x: nat | x < b ensures InFree(free', x) <==> TakesFirst(owners, quotas, x) {
      if a <= x {
        TakesFirstIn(owners, quotas, a, b, p, x);
      }
    }
  }

  method CollectFreeSpace(tree: FlatSegmentTree, quotas: map<nat, nat>)
    returns (free: seq<Interval>, left: map<nat, nat>)
    requires tree.Valid()
    requires forall x | 0 <= x < tree.max :: tree.owners[x] in quotas
    ensures Swept(tree.owners, quotas, free, left, tree.max)
    ensures PlainTaken(tree.owners, quotas, free, tree.max)
  {
    var leaves := tree.leaves;
    KnownValues(leaves, tree.owners, quotas);
    free, left := [], quotas;
    var lastLow, lastPid := leaves[0].key, leaves[0].value;
    var it: nat := 0;
    var done := false;
    ghost var n: nat := 0;
    SweptStart(tree.owners, quotas);
    while !done
      invariant AtSegment(leaves, it, done, lastLow, lastPid)
      invariant n == if it == 0 then 0 else if done then it else it - 1
      invariant PlainAt(leaves, tree.owners, quotas, free, left, n)
      decreases |leaves| - it, !done
    {
      if it == |leaves| - 1 { done := true; }
      if leaves[it].key != lastLow {
        free, left := SweepHead(free, left, lastLow, leaves[it].key, lastPid, leaves, tree.owners, quotas, n);
        lastLow, lastPid := leaves[it].key, leaves[it].value;
        n := n + 1;
      }
      if !done { it := it + 1; }
    }
  }

  /** One turn of the plain sweep, at segment n. */
  method SweepHead(free: seq<Interval>, left: map<nat, nat>, low: nat, high: nat, pid: nat,
                   ghost leaves: seq<Leaf>, ghost owners: seq<nat>, ghost quotas: map<nat, nat>, ghost n: nat)
    returns (free': seq<Interval>, left': map<nat, nat>)
    requires PlainAt(leaves, owners, quotas, free, left, n) && n < |leaves| - 1
    requires low == leaves[n].key && high == leaves[n+1].key && pid == leaves[n].value
    ensures PlainAt(leaves, owners, quotas, free', left', n + 1)
  {
    PlainStep(leaves, owners, quotas, free, left, n);
    free', left' := TakeHead(free, left, low, high, pid);
  }

  /** One turn of the plain sweep: the interval [low, high) of partition pid against what pid still owes. */
  method TakeHead(free: seq<Interval>, left: map<nat, nat>, low: nat, high: nat, pid: nat)
    returns (free': seq<Interval>, left': map<nat, nat>)
    requires low < high && pid in left
    ensures left[pid] == 0 ==> free' == free && left' == left
    ensures left[pid] != 0 ==>
              var part := PlainPart(left[pid], low, high);
              && free' == AddInterval(free, part.lo, part.hi)
              && part.hi - part.lo <= left[pid] && left' == left[pid := left[pid] - (part.hi - part.lo)]
  {
    free', left' := free, left;
    var size := high - low;
    var due := left[pid];
    if due != 0 {
      if size < due {
        if free != [] && free[|free|-1].hi == low {
          free' := free[..|free|-1] + [Interval(free[|free|-1].lo, high)];
        } else {
          free' := free + [Interval(low, high)];
        }
        left' := left[pid := left[pid] - size];
      } else {
        if free != [] && free[|free|-1].hi == low {
          free' := free[..|free|-1] + [Interval(free[|free|-1].lo, low + due)];
        } else {
          free' := free + [Interval(low, low + due)];
        }
        left' := left[pid := left[pid] - due];
      }
    }
  }

  lemma KnownValues(leaves: seq<Leaf>, owners: seq<nat>, quotas: map<nat, nat>)
    requires Represents(leaves, owners) && forall x | 0 <= x < |owners| :: owners[x] in quotas
    ensures forall k | 0 <= k < |leaves| - 1 :: leaves[k].value in quotas
  {
    forall k | 0 <= k < |leaves| - 1 ensures leaves[k].value in quotas {
      SegmentBounds(leaves, owners, k);
      assert owners[leaves[k].key] == leaves[k].value;
    }
  }

  /** The even-odd sweep before segment n. */
  ghost predicate EvenOddAt(leaves: seq<Leaf>, owners: seq<nat>, quotas: map<nat, nat>,
                            free: seq<Interval>, left: map<nat, nat>, even: bool, lastComplete: bool, n: nat) {
    && Represents(leaves, owners)
    && n < |leaves|
    && (forall k | 0 <= k < |leaves| - 1 :: leaves[k].value in quotas)
    && Swept(owners, quotas, free, left, leaves[n].key)
    && (even, lastComplete) == Flags(leaves, owners, quotas, n)
    && forall i | 0 <= i < n :: Follows(leaves, owners, quotas, free, i)
  }

  /** The interval [lo, hi) that the even-odd strategy takes out of [low, high). */
  function EvenOddPart(free: seq<Interval>, due: nat, low: nat, high: nat, even: bool): Interval
    requires low < high
  {
    if high - low < due then Interval(low, high)
    else if even && !(free != [] && free[|free|-1].hi == low) then Interval(high - due, high)
    else Interval(low, low + due)
  }

  lemma EvenOddStep(leaves: seq<Leaf>, owners: seq<nat>, quotas: map<nat, nat>,
                    free: seq<Interval>, left: map<nat, nat>, even: bool, lastComplete: bool, n: nat)
    requires EvenOddAt(leaves, owners, quotas, free, left, even, lastComplete, n) && n < |leaves| - 1
    ensures var low, high, pid := leaves[n].key, leaves[n+1].key, leaves[n].value;
            pid in left && low < high &&
            if left[pid] == 0 then EvenOddAt(leaves, owners, quotas, free, left, even, lastComplete, n + 1)
            else
              var part := EvenOddPart(free, left[pid], low, high, even);
              part.lo < part.hi && part.hi - part.lo <= left[pid] &&
              var complete := high - low < left[pid];
              EvenOddAt(leaves, owners, quotas, AddInterval(free, part.lo, part.hi),
                left[pid := left[pid] - (part.hi - part.lo)],
                (if complete then even && !lastComplete else !even), complete, n + 1)
  {
    SegmentBounds(leaves, owners, n);
    if left[leaves[n].value] == 0 {
      EvenOddSkipped(leaves, owners, quotas, free, left, even, lastComplete, n);
    } else {
      EvenOddTaken(leaves, owners, quotas, free, left, even, lastComplete, n);
    }
  }

  lemma EvenOddSkipped(leaves: seq<Leaf>, owners: seq<nat>, quotas: map<nat, nat>,
                       free: seq<Interval>, left: map<nat, nat>, even: bool, lastComplete: bool, n: nat)
    requires EvenOddAt(leaves, owners, quotas, free, left, even, lastComplete, n) && n < |leaves| - 1
    requires leaves[n].key < leaves[n+1].key && left[leaves[n].value] == 0
    ensures EvenOddAt(leaves, owners, quotas, free, left, even, lastComplete, n + 1)
  {
    var low, high, pid := leaves[n].key, leaves[n+1].key, leaves[n].value;
    SegmentBounds(leaves, owners, n);
    SweptSkip(owners, quotas, free, left, low, high, pid);
    FollowsNext(leaves, owners, quotas, free, free, n, low, low);
  }

  lemma EvenOddTaken(leaves: seq<Leaf>, owners: seq<nat>, quotas: map<nat, nat>,
                     free: seq<Interval>, left: map<nat, nat>, even: bool, lastComplete: bool, n: nat)
    requires EvenOddAt(leaves, owners, quotas, free, left, even, lastComplete, n) && n < |leaves| - 1
    requires leaves[n].key < leaves[n+1].key && left[leaves[n].value] != 0
    ensures var low, high, pid := leaves[n].key, leaves[n+1].key, leaves[n].value;
            var part := EvenOddPart(free, left[pid], low, high, even);
            part.lo < part.hi && part.hi - part.lo <= left[pid] &&
            var complete := high - low < left[pid];
            EvenOddAt(leaves, owners, quotas, AddInterval(free, part.lo, part.hi),
              left[pid := left[pid] - (part.hi - part.lo)],
              (if complete then even && !lastComplete else !even), complete, n + 1)
  {
    var low, high, pid := leaves[n].key, leaves[n+1].key, leaves[n].value;
    var part := EvenOddPart(free, left[pid], low, high, even);
    SegmentBounds(leaves, owners, n);
    SweptTake(owners, quotas, free, left, low, high, pid, part.lo, part.hi);
    EvenOddTake(leaves, owners, quotas, free, left, even, lastComplete, n, part);
  }

  lemma EvenOddTake(leaves: seq<Leaf>, owners: seq<nat>, quotas: map<nat, nat>,
                    free: seq<Interval>, left: map<nat, nat>, even: bool, lastComplete: bool, n: nat, part: Interval)
    requires EvenOddAt(leaves, owners, quotas, free, left, even, lastComplete, n) && n < |leaves| - 1
    requires leaves[n].key < leaves[n+1].key && left[leaves[n].value] != 0
    requires part == EvenOddPart(free, left[leaves[n].value], leaves[n].key, leaves[n+1].key, even)
    ensures var low, high, pid := leaves[n].key, leaves[n+1].key, leaves[n].value;
            part.lo < part.hi && part.hi - part.lo <= left[pid]
    ensures forall i | 0 <= i <= n :: Follows(leaves, owners, quotas, AddInterval(free, part.lo, part.hi), i)
  {
    var low, high, pid := leaves[n].key, leaves[n+1].key, leaves[n].value;
    SegmentBounds(leaves, owners, n);
    EvenOddPartTaken(leaves, owners, quotas, free, n);
    AddIntervalKeeps(free, low, part.lo, part.hi, high);
    FollowsNext(leaves, owners, quotas, free, AddInterval(free, part.lo, part.hi), n, part.lo, part.hi);
  }

  lemma {:induction false} EvenOddPartTaken(leaves: seq<Leaf>, owners: seq<nat>, quotas: map<nat, nat>,
                                            free: seq<Interval>, n: nat)
    requires Represents(leaves, owners) && n < |leaves| - 1
    requires forall k | 0 <= k < |leaves| - 1 :: leaves[k].value in quotas
    requires Separated(free, leaves[n].key)
    requires n > 0 ==> Follows(leaves, owners, quotas, free, n - 1)
    requires CutOf(leaves, owners, quotas, n) != Kept
    ensures var low, high, pid := leaves[n].key, leaves[n+1].key, leaves[n].value;
            var part := EvenOddPart(free, Excess(quotas[pid], Count(owners, 0, low, pid)), low, high,
                Flags(leaves, owners, quotas, n).0);
            forall x | low <= x < high :: part.lo <= x < part.hi <==> TakesEvenOdd(leaves, owners, quotas, n, x)
  {
    Touches(free, leaves[n].key);
    if n > 0 {
      SegmentBounds(leaves, owners, n - 1);
      assert InFree(free, leaves[n].key - 1) <==> TakesEvenOdd(leaves, owners, quotas, n - 1, leaves[n].key - 1);
    }
  }

  method CollectFreeSpaceEvenOdd(tree: FlatSegmentTree, quotas: map<nat, nat>)
    returns (free: seq<Interval>, left: map<nat, nat>)
    requires tree.Valid()
    requires forall x | 0 <= x < tree.max :: tree.owners[x] in quotas
    ensures Swept(tree.owners, quotas, free, left, tree.max)
    ensures forall k | 0 <= k < |tree.leaves| - 1 :: tree.leaves[k].value in quotas
    ensures forall i | 0 <= i < |tree.leaves| - 1 :: Follows(tree.leaves, tree.owners, quotas, free, i)
  {
    var leaves := tree.leaves;
    KnownValues(leaves, tree.owners, quotas);
    free, left := [], quotas;
    var lastWasComplete, even := false, false;
    var lastLow, lastPid := leaves[0].key, leaves[0].value;
    var it: nat := 0;
    var done := false;
    ghost var n: nat := 0;
    SweptStart(tree.owners, quotas);
    while !done
      invariant AtSegment(leaves, it, done, lastLow, lastPid)
      invariant n == if it == 0 then 0 else if done then it else it - 1
      invariant EvenOddAt(leaves, tree.owners, quotas, free, left, even, lastWasComplete, n)
      decreases |leaves| - it, !done
    {
      if it == |leaves| - 1 { done := true; }
      if leaves[it].key != lastLow {
        free, left, even, lastWasComplete :=
          SweepEvenOdd(free, left, lastLow, leaves[it].key, lastPid, even, lastWasComplete,
                       leaves, tree.owners, quotas, n);
        lastLow, lastPid := leaves[it].key, leaves[it].value;
        n := n + 1;
      }
      if !done { it := it + 1; }
    }
  }

  /** One turn of the even-odd sweep, at segment n. */
  method SweepEvenOdd(free: seq<Interval>, left: map<nat, nat>, low: nat, high: nat, pid: nat, even: bool,
                      lastWasComplete: bool,
                      ghost leaves: seq<Leaf>, ghost owners: seq<nat>, ghost quotas: map<nat, nat>, ghost n: nat)
    returns (free': seq<Interval>, left': map<nat, nat>, even': bool, lastWasComplete': bool)
    requires EvenOddAt(leaves, owners, quotas, free, left, even, lastWasComplete, n) && n < |leaves| - 1
    requires low == leaves[n].key && high == leaves[n+1].key && pid == leaves[n].value
    ensures EvenOddAt(leaves, owners, quotas, free', left', even', lastWasComplete', n + 1)
  {
    EvenOddStep(leaves, owners, quotas, free, left, even, lastWasComplete, n);
    EndsBefore(free, low);
    free', left', even', lastWasComplete' := TakeEvenOdd(free, left, low, high, pid, even, lastWasComplete);
  }

  lemma EndsBefore(free: seq<Interval>, low: nat)
    requires Separated(free, low)
    ensures free != [] ==> free[|free|-1].hi <= low
  {
  }

  method TakeEvenOdd(free: seq<Interval>, left: map<nat, nat>, low: nat, high: nat, pid: nat, even: bool,
                     lastWasComplete: bool)
    returns (free': seq<Interval>, left': map<nat, nat>, even': bool, lastWasComplete': bool)
    requires low < high && pid in left && (free != [] ==> free[|free|-1].hi <= low)
    ensures left[pid] == 0 ==> free' == free && left' == left && even' == even && lastWasComplete' == lastWasComplete
    ensures left[pid] != 0 ==>
              var part := EvenOddPart(free, left[pid], low, high, even);
              && free' == AddInterval(free, part.lo, part.hi)
              && part.hi - part.lo <= left[pid] && left' == left[pid := left[pid] - (part.hi - part.lo)]
              && lastWasComplete' == (high - low < left[pid])
              && even' == if lastWasComplete' then even && !lastWasComplete else !even
  {
    free', left', even', lastWasComplete' := free, left, even, lastWasComplete;
    var size := high - low;
    var due := left[pid];
    if due != 0 {
      if size < due {
        if free != [] && free[|free|-1].hi == low {
          free' := free[..|free|-1] + [Interval(free[|free|-1].lo, high)];
        } else {
          free' := free + [Interval(low, high)];
        }
        left' := left[pid := left[pid] - size];
        if lastWasComplete { even' := false; }
        lastWasComplete' := true;
      } else {
        if free != [] && free[|free|-1].hi == low {
          free' := free[..|free|-1] + [Interval(free[|free|-1].lo, low + due)];
        } else if even {
          free' := free + [Interval(high - due, high)];
        } else {
          free' := free + [Interval(low, low + due)];
        }
        left' := left[pid := left[pid] - due];
        lastWasComplete' := false;
        even' := !even;
      }
    }
  }

  /** Extending the list inside segment n leaves the earlier segments as they were. */
  lemma FollowsNext(leaves: seq<Leaf>, owners: seq<nat>, quotas: map<nat, nat>,
                    before: seq<Interval>, free: seq<Interval>, n: nat, lo: nat, hi: nat)
    requires Represents(leaves, owners) && n < |leaves| - 1
    requires forall k | 0 <= k < |leaves| - 1 :: leaves[k].value in quotas
    requires Separated(before, leaves[n].key)
    requires forall i | 0 <= i < n :: Follows(leaves, owners, quotas, before, i)
    requires forall x: nat :: InFree(free, x) <==> InFree(before, x) || lo <= x < hi
    requires leaves[n].key <= lo <= hi <= leaves[n+1].key
    requires forall x | leaves[n].key <= x < leaves[n+1].key ::
             lo <= x < hi <==> TakesEvenOdd(leaves, owners, quotas, n, x)
    ensures forall i | 0 <= i <= n :: Follows(leaves, owners, quotas, free, i)
  {
    forall i | 0 <= i <= n ensures Follows(leaves, owners, quotas, free, i) {
      if i < n {
        assert Follows(leaves, owners, quotas, before, i);
        assert leaves[i+1].key <= leaves[n].key;
      } else {
        assert forall x: nat | InFree(before, x) :: x < leaves[n].key;
      }
    }
  }
}
