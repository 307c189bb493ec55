/**
 The flat segment tree that stores the interval table of Random Slicing: a list of leaves, each
 holding the first block of a segment and its owner; the last leaf only closes the space.
 */
module SegmentTree {
  import opened Blocks

  datatype Leaf = Leaf(key: nat, value: nat)

  ghost predicate Ascending(leaves: seq<Leaf>) {
    forall i, j | 0 <= i < j < |leaves| :: leaves[i].key < leaves[j].key
  }

  ghost predicate OwnedBy(owners: seq<nat>, lo: nat, hi: nat, id: nat) {
    hi <= |owners| && forall x | lo <= x < hi :: owners[x] == id
  }

  /** Consecutive leaves bound a segment owned by the first of them. */
  ghost predicate Chain(leaves: seq<Leaf>, owners: seq<nat>) {
    && Ascending(leaves)
    && forall i | 0 <= i < |leaves| - 1 :: OwnedBy(owners, leaves[i].key, leaves[i+1].key, leaves[i].value)
  }

  /** The segments tile the whole of [0, |owners|): no gap, no overlap, and they say who owns each block. */
  ghost predicate Represents(leaves: seq<Leaf>, owners: seq<nat>) {
    && |leaves| >= 2
    && leaves[0].key == 0
    && leaves[|leaves|-1].key == |owners|
    && Chain(leaves, owners)
  }

  lemma ChainJoin(head: seq<Leaf>, tail: seq<Leaf>, owners: seq<nat>)
    requires Chain(head, owners) && Chain(tail, owners) && head != [] && tail != []
    requires head[|head|-1].key < tail[0].key
    requires OwnedBy(owners, head[|head|-1].key, tail[0].key, head[|head|-1].value)
    ensures Chain(head + tail, owners)
  {
    var all := head + tail;
    forall i, j | 0 <= i < j < |all| ensures all[i].key < all[j].key {
      assert i < |head| ==> head[i].key <= head[|head|-1].key;
      assert j >= |head| ==> tail[0].key <= tail[j-|head|].key;
    }
    forall i | 0 <= i < |all| - 1 ensures OwnedBy(owners, all[i].key, all[i+1].key, all[i].value) {
      if i >= |head| {
        assert OwnedBy(owners, tail[i-|head|].key, tail[i-|head|+1].key, tail[i-|head|].value);
      }
    }
  }

  /** A run of leaves on one side of a refilled range still describes its segments. */
  lemma ChainOutside(leaves: seq<Leaf>, owners: seq<nat>, from: nat, to: nat, lo: nat, hi: nat, id: nat)
    requires Chain(leaves, owners) && from <= to <= |leaves| && lo <= hi <= |owners|
    requires (forall i | from <= i < to :: leaves[i].key <= lo) || (forall i | from <= i < to :: hi <= leaves[i].key)
    ensures Chain(leaves[from..to], Fill(owners, lo, hi, id))
  {
    var run := leaves[from..to];
    forall i | 0 <= i < |run| - 1 ensures OwnedBy(Fill(owners, lo, hi, id), run[i].key, run[i+1].key, run[i].value) {
      assert OwnedBy(owners, leaves[from+i].key, leaves[from+i+1].key, leaves[from+i].value);
      assert leaves[from+i+1].key <= lo || hi <= leaves[from+i].key;
    }
  }

  /** The leaves up to a refilled range, closed by a leaf that owns it. */
  /** Leaves up to one that opens a segment of val reaching to `end`. */
  ghost predicate OpensFill(head: seq<Leaf>, owners: seq<nat>, start: nat, end: nat, val: nat) {
    && head != [] && Chain(head, owners)
    && head[0].key == 0 && head[|head|-1].key <= start && head[|head|-1].value == val
    && OwnedBy(owners, head[|head|-1].key, end, val)
  }

  /** Leaves from the end of a segment of val on. */
  ghost predicate ClosesFill(tail: seq<Leaf>, owners: seq<nat>, end: nat, val: nat) {
    && tail != [] && Chain(tail, owners)
    && tail[|tail|-1].key == |owners| && end <= tail[0].key
    && OwnedBy(owners, end, tail[0].key, val)
  }

  lemma HeadOfFill(leaves: seq<Leaf>, owners: seq<nat>, s: nat, start: nat, end: nat, val: nat, head: seq<Leaf>)
    requires Represents(leaves, owners) && s < |leaves| && start < end <= |owners|
    requires start <= leaves[s].key && forall i | 0 <= i < s :: leaves[i].key < start
    requires head == leaves[..s] + [Leaf(start, val)] || (head == leaves[..s] && s > 0 && leaves[s-1].value == val)
    ensures OpensFill(head, Fill(owners, start, end, val), start, end, val)
  {
    ChainOutside(leaves, owners, 0, s, start, end, val);
    if s > 0 {
      assert OwnedBy(owners, leaves[s-1].key, leaves[s-1+1].key, leaves[s-1].value);
      if head != leaves[..s] {
        ChainJoin(leaves[..s], [Leaf(start, val)], Fill(owners, start, end, val));
      }
    }
  }

  /** The leaves up to the new segment and those from its end on make up the new list. */
  lemma JoinFill(head: seq<Leaf>, tail: seq<Leaf>, owners: seq<nat>, start: nat, end: nat, val: nat)
    requires start < end && OpensFill(head, owners, start, end, val) && ClosesFill(tail, owners, end, val)
    ensures Represents(head + tail, owners)
  {
    assert OwnedBy(owners, head[|head|-1].key, tail[0].key, val);
    ChainJoin(head, tail, owners);
  }

  /** The leaves from the end of a refilled range on. */
  lemma TailOfFill(leaves: seq<Leaf>, owners: seq<nat>, e: nat, start: nat, end: nat, val: nat, before: nat,
                   tail: seq<Leaf>)
    requires Represents(leaves, owners) && 0 < e < |leaves| && start < end <= |owners|
    requires end <= leaves[e].key && leaves[e-1].key < end && before == leaves[e-1].value
    requires if leaves[e].key == end then
               tail == leaves[e..] || (e < |leaves| - 1 && leaves[e].value == val && tail == leaves[e+1..])
             else
               (before == val && tail == leaves[e..]) || tail == [Leaf(end, before)] + leaves[e..]
    ensures ClosesFill(tail, Fill(owners, start, end, val), end, val)
  {
    if leaves[e].key == end && tail != leaves[e..] {
      MergedTail(leaves, owners, e, start, end, val);
    } else if tail != leaves[e..] {
      CutTail(leaves, owners, e, start, end, val, before);
    } else {
      KeptTail(leaves, owners, e, start, end, val, before);
    }
  }

  lemma KeptTail(leaves: seq<Leaf>, owners: seq<nat>, e: nat, start: nat, end: nat, val: nat, before: nat)
    requires Represents(leaves, owners) && 0 < e < |leaves| && start < end <= |owners|
    requires end <= leaves[e].key && leaves[e-1].key < end && before == leaves[e-1].value
    requires end == leaves[e].key || before == val
    ensures ClosesFill(leaves[e..], Fill(owners, start, end, val), end, val)
  {
    ChainOutside(leaves, owners, e, |leaves|, start, end, val);
    assert OwnedBy(owners, leaves[e-1].key, leaves[e-1+1].key, before);
  }

  lemma CutTail(leaves: seq<Leaf>, owners: seq<nat>, e: nat, start: nat, end: nat, val: nat, before: nat)
    requires Represents(leaves, owners) && 0 < e < |leaves| && start < end <= |owners|
    requires leaves[e-1].key < end < leaves[e].key && before == leaves[e-1].value
    ensures ClosesFill([Leaf(end, before)] + leaves[e..], Fill(owners, start, end, val), end, val)
  {
    ChainOutside(leaves, owners, e, |leaves|, start, end, val);
    assert OwnedBy(owners, leaves[e-1].key, leaves[e-1+1].key, before);
    ChainJoin([Leaf(end, before)], leaves[e..], Fill(owners, start, end, val));
  }

  lemma MergedTail(leaves: seq<Leaf>, owners: seq<nat>, e: nat, start: nat, end: nat, val: nat)
    requires Represents(leaves, owners) && 0 < e < |leaves| - 1 && start < end <= |owners|
    requires end == leaves[e].key && leaves[e].value == val
    ensures ClosesFill(leaves[e+1..], Fill(owners, start, end, val), end, val)
  {
    ChainOutside(leaves, owners, e + 1, |leaves|, start, end, val);
    assert OwnedBy(owners, leaves[e].key, leaves[e+1].key, val);
  }

  /** The table determines the owners: two readings of the same leaves agree. */
  lemma RepresentsUnique(leaves: seq<Leaf>, a: seq<nat>, b: seq<nat>)
    requires Represents(leaves, a) && Represents(leaves, b)
    ensures a == b
  {
    forall x | 0 <= x < |a| ensures a[x] == b[x] {
      var i := SegmentOf(leaves, x, |leaves| - 1);
      assert a[x] == leaves[i].value;
    }
  }

  lemma SegmentOf(leaves: seq<Leaf>, x: nat, n: nat) returns (i: nat)
    requires 0 < n < |leaves| && Ascending(leaves) && leaves[0].key <= x < leaves[n].key
    ensures i < n && leaves[i].key <= x < leaves[i+1].key
  {
    if leaves[n-1].key <= x {
      i := n - 1;
    } else {
      i := SegmentOf(leaves, x, n - 1);
    }
  }

  class FlatSegmentTree {
    const max: nat
    var leaves: seq<Leaf>
    var treeBuilt: bool
    ghost var owners: seq<nat>

    ghost predicate Valid()
      reads this
    {
      |owners| == max && Represents(leaves, owners)
    }

    constructor (max: nat, init: nat)
      requires max > 0
      ensures Valid() && this.max == max && !treeBuilt
      ensures owners == seq(max, _ => init)
    {
      this.max := max;
      leaves := [Leaf(0, init), Leaf(max, 0xFFFF_FFFF_FFFF_FFFF)];
      treeBuilt := false;
      owners := seq(max, _ => init);
    }

    /** First leaf at or after position `from` whose key is not below `key`. */
    method InsertionPos(key: nat, from: nat) returns (pos: nat)
      requires Valid() && from < |leaves| && key <= max
      ensures from <= pos < |leaves| && key <= leaves[pos].key
      ensures forall i | from <= i < pos :: leaves[i].key < key
    {
      pos := from;
      while key > leaves[pos].key
        invariant from <= pos < |leaves|
        invariant forall i | from <= i < pos :: leaves[i].key < key
      {
        pos := pos + 1;
      }
    }

    /** Hands [start, end) to val; an existing segment is cut, extended or swallowed as needed. */
    method InsertFront(start: nat, end: nat, val: nat)
      requires Valid()
      modifies this`leaves, this`treeBuilt, this`owners
      ensures Valid()
      ensures start < end && start < max ==>
                owners == Fill(old(owners), start, if end > max then max else end, val) && !treeBuilt
      ensures !(start < end && start < max) ==> unchanged(this)
    {
      if start > max { return; }
      var endKey := if end > max then max else end;
      if start >= endKey { return; }

      var filled := Splice(start, endKey, val);
      leaves, owners, treeBuilt := filled, Fill(owners, start, endKey, val), false;
    }

    /** The leaves after [start, end) went to val. */
    method Splice(start: nat, end: nat, val: nat) returns (filled: seq<Leaf>)
      requires Valid() && start < end <= max
      ensures Represents(filled, Fill(owners, start, end, val))
    {
      var s := InsertionPos(start, 0);
      var e := InsertionPos(end, s);
      var head, next, first := SetStartNode(leaves, s, start, val);
      var oldValue := LastReplaced(leaves, next, e, first);
      HeadOfFill(leaves, owners, s, start, end, val, head);
      var tail := EndOfFill(e, start, end, val, oldValue);
      JoinFill(head, tail, Fill(owners, start, end, val), start, end, val);
      filled := head + tail;
    }

    method EndOfFill(e: nat, start: nat, end: nat, val: nat, oldValue: nat) returns (tail: seq<Leaf>)
      requires Valid() && 0 < e < |leaves| && start < end <= max
      requires end <= leaves[e].key && leaves[e-1].key < end && oldValue == leaves[e-1].value
      ensures ClosesFill(tail, Fill(owners, start, end, val), end, val)
    {
      tail := SetEndNode(leaves, e, end, val, oldValue);
      TailOfFill(leaves, owners, e, start, end, val, oldValue, tail);
    }

    /** Picks, changes or creates the leaf that opens the new segment; `next` is the first leaf it may swallow. */
    static method SetStartNode(leaves: seq<Leaf>, s: nat, start: nat, val: nat)
      returns (head: seq<Leaf>, next: nat, oldValue: nat)
      requires s < |leaves| && (s == 0 ==> leaves[s].key == start)
      ensures head == leaves[..s] + [Leaf(start, val)] || (head == leaves[..s] && s > 0 && leaves[s-1].value == val)
      ensures s <= next <= s + 1 && (next == s + 1 ==> leaves[s].key == start)
      ensures oldValue == if leaves[s].key == start then leaves[s].value else leaves[s-1].value
    {
      next := s;
      if leaves[s].key == start {
        oldValue := leaves[s].value;
        if s > 0 && leaves[s-1].value == val {
          head := leaves[..s];
        } else {
          head := leaves[..s] + [Leaf(start, val)];
          next := s + 1;
        }
      } else if leaves[s-1].value == val {
        oldValue := leaves[s-1].value;
        head := leaves[..s];
      } else {
        head := leaves[..s] + [Leaf(start, val)];
        oldValue := leaves[s-1].value;
      }
    }

    /** Drops the leaves in [from, e), remembering the owner of the last one. */
    static method LastReplaced(leaves: seq<Leaf>, from: nat, e: nat, first: nat) returns (oldValue: nat)
      requires from <= e < |leaves|
      ensures oldValue == if from == e then first else leaves[e-1].value
    {
      oldValue := first;
      var next := from;
      while next != e
        invariant from <= next <= e
        invariant oldValue == if from == next then first else leaves[next-1].value
      {
        oldValue := leaves[next].value;
        next := next + 1;
      }
    }

    /** Keeps, merges or creates the leaf that closes the new segment. */
    static method SetEndNode(leaves: seq<Leaf>, e: nat, endKey: nat, val: nat, oldValue: nat)
      returns (tail: seq<Leaf>)
      requires e < |leaves|
      ensures if leaves[e].key == endKey then
                tail == if e < |leaves| - 1 && leaves[e].value == val then leaves[e+1..] else leaves[e..]
              else
                tail == if oldValue == val then leaves[e..] else [Leaf(endKey, oldValue)] + leaves[e..]
    {
      if leaves[e].key == endKey {
        if e < |leaves| - 1 && leaves[e].value == val {
          tail := leaves[e+1..];
        } else {
          tail := leaves[e..];
        }
      } else if oldValue == val {
        tail := leaves[e..];
      } else {
        tail := [Leaf(endKey, oldValue)] + leaves[e..];
      }
    }

    method BuildTree()
      requires Valid()
      modifies this`treeBuilt
      ensures Valid() && treeBuilt
    {
      treeBuilt := true;
    }

    /** Finds the owner of a block; fails when the search tree is stale or the key lies outside [0, max). */
    method SearchTree(key: nat) returns (found: bool, value: nat)
      requires Valid()
      ensures found == (treeBuilt && key < max)
      ensures found ==> value == owners[key]
      ensures !found ==> value == 0
    {
      if !treeBuilt || key >= max {
        return false, 0;
      }
      var pos := InsertionPos(key, 0);
      if leaves[pos].key == key {
        assert key == leaves[pos].key < leaves[pos+1].key;
        return true, leaves[pos].value;
      }
      assert leaves[pos-1].key <= key < leaves[pos-1+1].key;
      return true, leaves[pos-1].value;
    }
  }
}
