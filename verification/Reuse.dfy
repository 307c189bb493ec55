/** Reusing free space: handing the collected blocks, split as needed, to the new partitions. */
module Reuse {
  import opened Sums
  import opened Blocks
  import opened FreeSpace
  import opened SegmentTree

  // ---- the stable descending sort applied to both lists by the sorted strategy ----

  ghost predicate Descending<T>(s: seq<T>, size: T -> nat) {
    forall i, j | 0 <= i < j < |s| :: size(s[i]) >= size(s[j])
  }

  function InsertDescending<T>(x: T, s: seq<T>, size: T -> nat): seq<T> {
    if s == [] || size(s[0]) <= size(x) then [x] + s
    else [s[0]] + InsertDescending(x, s[1..], size)
  }

  function SortDescending<T>(s: seq<T>, size: T -> nat): seq<T> {
    if s == [] then [] else InsertDescending(s[0], SortDescending(s[1..], size), size)
  }

  lemma {:induction false} InsertDescendingMembers<T>(x: T, s: seq<T>, size: T -> nat)
    ensures multiset(InsertDescending(x, s, size)) == multiset{x} + multiset(s)
  {
    if s != [] && size(s[0]) > size(x) {
      InsertDescendingMembers(x, s[1..], size);
      assert s == [s[0]] + s[1..];
    }
  }

  lemma {:induction false} InsertDescendingSorts<T>(x: T, s: seq<T>, size: T -> nat)
    requires Descending(s, size)
    ensures Descending(InsertDescending(x, s, size), size)
  {
    if s != [] && size(s[0]) > size(x) {
      InsertDescendingSorts(x, s[1..], size);
      InsertDescendingMembers(x, s[1..], size);
      var t := InsertDescending(x, s[1..], size);
      forall j | 0 <= j < |t| ensures size(s[0]) >= size(t[j]) {
        assert t[j] in multiset{x} + multiset(s[1..]);
        assert t[j] == x || t[j] in s[1..];
      }
    }
  }

  lemma {:induction false} SortDescendingSorts<T>(s: seq<T>, size: T -> nat)
    ensures multiset(SortDescending(s, size)) == multiset(s)
    ensures Descending(SortDescending(s, size), size)
  {
    if s != [] {
      SortDescendingSorts(s[1..], size);
      InsertDescendingSorts(s[0], SortDescending(s[1..], size), size);
      InsertDescendingMembers(s[0], SortDescending(s[1..], size), size);
      assert s == [s[0]] + s[1..];
    }
  }

  /** In descending size, and among equal sizes in ascending position. */
  ghost predicate InOrder<T>(s: seq<T>, size: T -> nat, pos: T -> nat) {
    forall i, j | 0 <= i < j < |s| :: ComesFirst(s[i], s[j], size, pos)
  }

  ghost predicate ComesFirst<T>(x: T, y: T, size: T -> nat, pos: T -> nat) {
    size(x) > size(y) || (size(x) == size(y) && pos(x) < pos(y))
  }

  lemma {:induction false} InsertDescendingStable<T>(x: T, s: seq<T>, size: T -> nat, pos: T -> nat)
    requires InOrder(s, size, pos) && forall i | 0 <= i < |s| :: pos(x) < pos(s[i])
    ensures InOrder(InsertDescending(x, s, size), size, pos)
  {
    if s != [] && size(s[0]) > size(x) {
      InsertDescendingStable(x, s[1..], size, pos);
      InsertDescendingMembers(x, s[1..], size);
      var t := InsertDescending(x, s[1..], size);
      forall j | 0 <= j < |t| ensures ComesFirst(s[0], t[j], size, pos) {
        assert t[j] in multiset{x} + multiset(s[1..]);
        assert t[j] == x || t[j] in s[1..];
      }
    }
  }

  /** The sort keeps the order of elements of equal size. */
  lemma {:induction false} SortDescendingStable<T>(s: seq<T>, size: T -> nat, pos: T -> nat)
    requires forall i, j | 0 <= i < j < |s| :: pos(s[i]) < pos(s[j])
    ensures InOrder(SortDescending(s, size), size, pos)
  {
    if s != [] {
      var t := SortDescending(s[1..], size);
      SortDescendingStable(s[1..], size, pos);
      SortDescendingSorts(s[1..], size);
      forall i | 0 <= i < |t| ensures pos(s[0]) < pos(t[i]) {
        assert t[i] in multiset(s[1..]);
        assert t[i] in s[1..];
      }
      InsertDescendingStable(s[0], t, size, pos);
    }
  }

  function IntervalSize(i: Interval): nat { if i.lo <= i.hi then i.hi - i.lo else 0 }

  function RequestSize(r: Request): nat { r.size }

  // ---- splitting the free intervals ----

  ghost predicate Bounded(free: seq<Interval>, bound: nat) {
    forall i | 0 <= i < |free| :: free[i].lo <= free[i].hi <= bound
  }

  lemma {:induction false} BoundedBlocks(free: seq<Interval>, bound: nat)
    requires Bounded(free, bound)
    ensures InSpace(BlocksOf(free), bound)
  {
    if free != [] {
      BoundedBlocks(free[1..], bound);
      var head, tail := RangeOf(free[0]), BlocksOf(free[1..]);
      assert BlocksOf(free) == head + tail;
    }
  }

  /** Used-up intervals contribute no blocks. */
  lemma {:induction false} BlocksAfterEmpty(free: seq<Interval>, j: nat)
    requires j <= |free| && forall i | 0 <= i < j :: free[i].lo == free[i].hi
    ensures BlocksOf(free) == BlocksOf(free[j..])
  {
    if j > 0 {
      BlocksAfterEmpty(free[1..], j - 1);
      assert free[1..][j-1..] == free[j..];
      assert RangeOf(free[0]) == [];
    } else {
      assert free[0..] == free;
    }
  }

  /** The work still to do: the free blocks in list order against what is left of the requests. */
  function Outcome(owners: seq<nat>, free: seq<Interval>, pid: nat, psize: nat, rest: seq<Request>): seq<nat>
    requires InSpace(BlocksOf(free), |owners|)
  {
    Assign(owners, BlocksOf(free), Copies(Request(pid, psize)) + Receivers(rest))
  }

  /** Taking n blocks off the first interval that still has some. */
  lemma BlocksSplit(free: seq<Interval>, j: nat, n: nat, left: Interval)
    requires j < |free| && free[j].lo <= free[j].hi && forall i | 0 <= i < j :: free[i].lo == free[i].hi
    requires n <= free[j].hi - free[j].lo && RangeOf(left) == RangeOf(Interval(free[j].lo + n, free[j].hi))
    ensures BlocksOf(free) == RangeOf(Interval(free[j].lo, free[j].lo + n)) + BlocksOf(free[j := left])
  {
    var next := free[j := left];
    BlocksAfterEmpty(free, j);
    BlocksAfterEmpty(next, j);
    assert free[j..][1..] == next[j..][1..];
    var taken, later := RangeOf(Interval(free[j].lo, free[j].lo + n)), BlocksOf(free[j..][1..]);
    assert RangeOf(free[j]) == taken + RangeOf(left);
    assert taken + RangeOf(left) + later == taken + (RangeOf(left) + later);
  }

  lemma CopiesSplit(pid: nat, psize: nat, n: nat, ids: seq<nat>)
    requires n <= psize
    ensures Copies(Request(pid, psize)) + ids == Copies(Request(pid, n)) + (Copies(Request(pid, psize - n)) + ids)
  {
    assert Copies(Request(pid, psize)) == Copies(Request(pid, n)) + Copies(Request(pid, psize - n));
  }

  /** Assimilating the first n blocks of interval j leaves the rest of the work as it was. */
  lemma OutcomeStep(owners: seq<nat>, free: seq<Interval>, j: nat, n: nat, pid: nat, psize: nat,
                    rest: seq<Request>, left: Interval)
    requires Bounded(free, |owners|) && j < |free| && forall i | 0 <= i < j :: free[i].lo == free[i].hi
    requires 0 < n <= psize && n <= free[j].hi - free[j].lo
    requires left.lo <= left.hi <= |owners| && RangeOf(left) == RangeOf(Interval(free[j].lo + n, free[j].hi))
    ensures InSpace(BlocksOf(free), |owners|)
    ensures Bounded(free[j := left], |owners|) && InSpace(BlocksOf(free[j := left]), |owners|)
    ensures Outcome(owners, free, pid, psize, rest)
         == Outcome(Fill(owners, free[j].lo, free[j].lo + n, pid), free[j := left], pid, psize - n, rest)
  {
    BoundedBlocks(free, |owners|);
    BoundedBlocks(free[j := left], |owners|);
    BlocksSplit(free, j, n, left);
    CopiesSplit(pid, psize, n, Receivers(rest));
    AssignRun(owners, free[j].lo, n, pid, BlocksOf(free[j := left]), Copies(Request(pid, psize - n)) + Receivers(rest));
  }

  /** Gives interval j, or as much of it as pid still needs, to pid. */
  method Assimilate(tree: FlatSegmentTree, free: seq<Interval>, j: nat, pid: nat, psize: nat, ghost rest: seq<Request>)
    returns (free': seq<Interval>, psize': nat)
    requires tree.Valid() && Bounded(free, tree.max) && InSpace(BlocksOf(free), tree.max)
    requires j < |free| && free[j].lo < free[j].hi && psize > 0
    requires forall k | 0 <= k < j :: free[k].lo == free[k].hi
    modifies tree
    ensures tree.Valid() && |free'| == |free| && Bounded(free', tree.max) && InSpace(BlocksOf(free'), tree.max)
    ensures psize' > 0 ==> forall k | 0 <= k <= j :: free'[k].lo == free'[k].hi
    ensures Outcome(tree.owners, free', pid, psize', rest) == Outcome(old(tree.owners), free, pid, psize, rest)
  {
    var lo, hi := free[j].lo, free[j].hi;
    var isize := hi - lo;
    var taken: nat, left: Interval;
    if isize > psize {
      taken, left := psize, Interval(lo + psize, hi);
    } else {
      taken, left := isize, Interval(0, 0);
    }
    OutcomeStep(tree.owners, free, j, taken, pid, psize, rest, left);
    tree.InsertFront(lo, lo + taken, pid);
    free', psize' := free[j := left], psize - taken;
  }

  /**
   Assigns the free intervals to the new partitions in list order, splitting as needed: the k-th free
   block goes to the k-th requested receiver.
   */
  method ReuseFreeSpace(tree: FlatSegmentTree, freeSpace: seq<Interval>, requests: seq<Request>)
    requires tree.Valid() && Bounded(freeSpace, tree.max)
    modifies tree
    ensures tree.Valid() && tree.treeBuilt
    ensures InSpace(BlocksOf(freeSpace), |old(tree.owners)|)
    ensures tree.owners == Assign(old(tree.owners), BlocksOf(freeSpace), Receivers(requests))
  {
    BoundedBlocks(freeSpace, tree.max);
    ghost var goal := Assign(tree.owners, BlocksOf(freeSpace), Receivers(requests));
    var free := freeSpace;
    for i := 0 to |requests|
      invariant tree.Valid() && Bounded(free, tree.max) && InSpace(BlocksOf(free), tree.max)
      invariant Assign(tree.owners, BlocksOf(free), Receivers(requests[i..])) == goal
    {
      var pid, psize: nat := requests[i].id, requests[i].size;
      ghost var rest := requests[i+1..];
      assert requests[i..][1..] == rest;
      var j := 0;
      while j < |free| && psize > 0
        invariant 0 <= j <= |free|
        invariant tree.Valid() && Bounded(free, tree.max) && InSpace(BlocksOf(free), tree.max)
        invariant psize > 0 ==> forall k | 0 <= k < j :: free[k].lo == free[k].hi
        invariant Outcome(tree.owners, free, pid, psize, rest) == goal
      {
        if free[j].hi - free[j].lo != 0 {
          free, psize := Assimilate(tree, free, j, pid, psize, rest);
        }
        j := j + 1;
      }
      if psize > 0 {
        BlocksAfterEmpty(free, |free|);
        assert BlocksOf(free) == [];
      } else {
        assert Copies(Request(pid, 0)) + Receivers(rest) == Receivers(rest);
      }
    }
    assert requests[|requests|..] == [];
    tree.BuildTree();
  }

  /** As ReuseFreeSpace, after sorting both lists by decreasing size; returns the reordered requests. */
  method ReuseFreeSpaceSort(tree: FlatSegmentTree, freeSpace: seq<Interval>, requests: seq<Request>)
    returns (sortedFree: seq<Interval>, sorted: seq<Request>)
    requires tree.Valid() && Bounded(freeSpace, tree.max)
    modifies tree
    ensures tree.Valid() && tree.treeBuilt
    ensures sortedFree == SortDescending(freeSpace, IntervalSize) && sorted == SortDescending(requests, RequestSize)
    ensures multiset(sortedFree) == multiset(freeSpace) && Descending(sortedFree, IntervalSize)
    ensures multiset(sorted) == multiset(requests) && Descending(sorted, RequestSize)
    ensures InSpace(BlocksOf(sortedFree), |old(tree.owners)|)
    ensures tree.owners == Assign(old(tree.owners), BlocksOf(sortedFree), Receivers(sorted))
  {
    sortedFree := SortDescending(freeSpace, IntervalSize);
    sorted := SortDescending(requests, RequestSize);
    SortDescendingSorts(freeSpace, IntervalSize);
    SortDescendingSorts(requests, RequestSize);
    forall i | 0 <= i < |sortedFree| ensures sortedFree[i].lo <= sortedFree[i].hi <= tree.max {
      assert sortedFree[i] in multiset(freeSpace);
      assert sortedFree[i] in freeSpace;
    }
    ReuseFreeSpace(tree, sortedFree, sorted);
  }
}
