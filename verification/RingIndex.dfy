/**
 A ring of keys that is searched in constant time: the key space is cut into slices, and every slice
 knows the key that precedes it.
 */
module RingIndex {
  import opened Arithmetic
  import opened Powers

  const TWO_TO_THE_64: nat := 0x1_0000_0000_0000_0000

  ghost predicate Ascending(s: seq<nat>) {
    forall i, j | 0 <= i < j < |s| :: s[i] < s[j]
  }

  /** The keys of a ring: an ordered set of 64-bit numbers. */
  ghost predicate IsKeySet(keys: seq<nat>) {
    Ascending(keys) && forall i | 0 <= i < |keys| :: keys[i] < TWO_TO_THE_64
  }

  /** The position of the first key that is not below x. */
  function LowerBound(s: seq<nat>, x: nat): (n: nat)
    ensures n <= |s| && (n < |s| ==> s[n] >= x) && forall i | 0 <= i < n :: s[i] < x
  {
    if s == [] || s[0] >= x then 0 else 1 + LowerBound(s[1..], x)
  }

  lemma LowerBoundAt(s: seq<nat>, x: nat, n: nat)
    requires Ascending(s) && n <= |s| && (n < |s| ==> s[n] >= x) && (n > 0 ==> s[n-1] < x)
    ensures LowerBound(s, x) == n
  {
    var m := LowerBound(s, x);
  }

  /** The plain search: the largest key not above k, or the largest key of all if there is none. */
  function RingPredecessor(keys: seq<nat>, k: nat): (r: nat)
    requires keys != []
    ensures r in keys
  {
    var n := LowerBound(keys, k + 1);
    if n > 0 then keys[n-1] else keys[|keys|-1]
  }

  /** What the plain search finds, said of all keys. */
  lemma PredecessorIsClosest(keys: seq<nat>, k: nat)
    requires IsKeySet(keys) && keys != []
    ensures var r := RingPredecessor(keys, k);
            if exists x :: x in keys && x <= k then r <= k && forall x | x in keys && x <= k :: x <= r
            else forall x | x in keys :: x <= r
  {
    var n := LowerBound(keys, k + 1);
    forall i | 0 <= i < |keys| && keys[i] <= k ensures i < n {
    }
    if n > 0 { assert keys[n-1] in keys && keys[n-1] <= k; }
  }

  // ---- slices ----

  /** The key before a slice, 0 standing for none, unless a key is on the border of the slice. */
  function Head(keys: seq<nat>, start: nat, lo: nat): seq<nat>
    requires lo <= |keys|
  {
    if lo == |keys| || keys[lo] > start then [if lo > 0 then keys[lo-1] else 0] else []
  }

  /** The keys of one slice [start, end), behind the key before it. */
  function SliceOf(keys: seq<nat>, start: nat, lo: nat, hi: nat): seq<nat>
    requires lo <= hi <= |keys|
  {
    Head(keys, start, lo) + keys[lo..hi]
  }

  /** The largest entry not above k, found by a lower bound and one step back. */
  function Floor(slice: seq<nat>, k: nat): (r: nat)
    requires slice != [] && slice[0] <= k
  {
    var up := LowerBound(slice, k);
    if up == |slice| || slice[up] > k then slice[up-1] else slice[up]
  }

  lemma FloorIsAt(slice: seq<nat>, k: nat, j: nat)
    requires Ascending(slice) && j < |slice| && slice[j] <= k && (j + 1 < |slice| ==> slice[j+1] > k) && slice[0] <= k
    ensures Floor(slice, k) == slice[j]
  {
    if slice[j] == k {
      LowerBoundAt(slice, k, j);
    } else {
      LowerBoundAt(slice, k, j + 1);
    }
  }

  lemma SliceAscending(keys: seq<nat>, start: nat, lo: nat, hi: nat)
    requires Ascending(keys) && lo <= hi <= |keys| && (lo < |keys| ==> keys[lo] >= start)
             && (lo > 0 ==> keys[lo-1] < start)
    ensures Ascending(SliceOf(keys, start, lo, hi))
    ensures SliceOf(keys, start, lo, hi) != [] || lo == hi
  {
  }

  /** What a slice returns for a key in its range, with zero standing for the end of the ring. */
  lemma {:induction false} SliceFinds(keys: seq<nat>, start: nat, lo: nat, hi: nat, k: nat)
    requires IsKeySet(keys) && keys != [] && start <= k
    requires lo == LowerBound(keys, start) && lo <= hi <= |keys| && (hi < |keys| ==> k < keys[hi])
    ensures var slice := SliceOf(keys, start, lo, hi);
            var lastKey := if keys[0] == 0 then 0 else keys[|keys|-1];
            && slice != [] && slice[0] <= k
            && RingPredecessor(keys, k) == if Floor(slice, k) == 0 then lastKey else Floor(slice, k)
  {
    var n := LowerBound(keys, k + 1);
    NotBefore(keys, start, k, lo, n);
    Between(keys, k, hi, n);
    SliceFloor(keys, start, lo, hi, k, n);
    PredecessorFromFloor(keys, k, n, Floor(SliceOf(keys, start, lo, hi), k));
  }

  lemma PredecessorFromFloor(keys: seq<nat>, k: nat, n: nat, floor: nat)
    requires Ascending(keys) && keys != [] && n == LowerBound(keys, k + 1) && floor == if n > 0 then keys[n-1] else 0
    ensures var lastKey := if keys[0] == 0 then 0 else keys[|keys|-1];
            RingPredecessor(keys, k) == if floor == 0 then lastKey else floor
  {
    OnlyFirstIsZero(keys, n);
  }

  /** The floor in a slice is the key before the n-th, or 0 if there is none. */
  lemma SliceFloor(keys: seq<nat>, start: nat, lo: nat, hi: nat, k: nat, n: nat)
    requires Ascending(keys) && start <= k && lo <= n <= hi <= |keys|
    requires (lo < |keys| ==> keys[lo] >= start) && (lo > 0 ==> keys[lo-1] < start)
    requires (n < |keys| ==> keys[n] > k) && (n > 0 ==> keys[n-1] <= k)
    ensures var slice := SliceOf(keys, start, lo, hi);
            slice != [] && slice[0] <= k && Floor(slice, k) == if n > 0 then keys[n-1] else 0
  {
    SliceAscending(keys, start, lo, hi);
    var pre := Head(keys, start, lo);
    if n > lo {
      SliceBegins(keys, start, lo, hi, n, k);
      FloorInside(pre, keys, lo, hi, n, k);
    } else {
      assert pre == [if lo > 0 then keys[lo-1] else 0];
      FloorHead(pre[0], keys, lo, hi, k);
    }
  }

  lemma SliceBegins(keys: seq<nat>, start: nat, lo: nat, hi: nat, n: nat, k: nat)
    requires Ascending(keys) && start <= k && lo < n <= hi <= |keys| && keys[n-1] <= k
             && (lo > 0 ==> keys[lo-1] < start)
    ensures SliceOf(keys, start, lo, hi) != [] && SliceOf(keys, start, lo, hi)[0] <= k
  {
    assert keys[lo] <= keys[n-1];
    var slice := SliceOf(keys, start, lo, hi);
    if Head(keys, start, lo) == [] { assert slice[0] == keys[lo]; }
  }

  lemma OnlyFirstIsZero(keys: seq<nat>, n: nat)
    requires Ascending(keys) && n <= |keys|
    ensures n > 0 && keys[n-1] == 0 ==> n == 1
  {
    assert n > 1 ==> keys[0] < keys[n-1];
  }

  lemma FloorInside(pre: seq<nat>, keys: seq<nat>, lo: nat, hi: nat, n: nat, k: nat)
    requires lo < n <= hi <= |keys| && keys[n-1] <= k && (n < hi ==> keys[n] > k)
    requires Ascending(pre + keys[lo..hi]) && (pre + keys[lo..hi])[0] <= k
    ensures Floor(pre + keys[lo..hi], k) == keys[n-1]
  {
    var slice, j := pre + keys[lo..hi], |pre| + n - 1 - lo;
    assert slice[j] == keys[n-1];
    assert n < hi ==> slice[j+1] == keys[n];
    FloorIsAt(slice, k, j);
  }

  lemma FloorHead(head: nat, keys: seq<nat>, lo: nat, hi: nat, k: nat)
    requires lo <= hi <= |keys| && head <= k && (lo < hi ==> keys[lo] > k) && Ascending([head] + keys[lo..hi])
    ensures Floor([head] + keys[lo..hi], k) == head
  {
    var slice := [head] + keys[lo..hi];
    assert lo < hi ==> slice[1] == keys[lo];
    FloorIsAt(slice, k, 0);
  }

  lemma NotBefore(keys: seq<nat>, start: nat, k: nat, lo: nat, n: nat)
    requires Ascending(keys) && start <= k && lo == LowerBound(keys, start) && n == LowerBound(keys, k + 1)
    ensures lo <= n
  {
  }

  lemma Between(keys: seq<nat>, k: nat, hi: nat, n: nat)
    requires Ascending(keys) && hi <= |keys| && (hi < |keys| ==> k < keys[hi]) && n == LowerBound(keys, k + 1)
    ensures n <= hi
  {
  }

  lemma {:induction false} LowerBoundMonotone(keys: seq<nat>, x: nat, y: nat)
    requires Ascending(keys) && x <= y
    ensures LowerBound(keys, x) <= LowerBound(keys, y)
  {
  }

  /** The i-th of `slices` slices; the last one takes all keys that are left. */
  ghost function SliceIn(keys: seq<nat>, slices: nat, size: nat, i: nat): seq<nat>
    requires Ascending(keys) && i < slices
  {
    StartStep(i, size);
    LowerBoundMonotone(keys, Start(i, size), Start(i + 1, size));
    SliceOf(keys, Start(i, size), LowerBound(keys, Start(i, size)),
            if i == slices - 1 then |keys| else LowerBound(keys, Start(i + 1, size)))
  }

  function Start(i: nat, size: nat): nat {
    NatProduct(i, size);
    i * size
  }

  lemma StartStep(i: nat, size: nat)
    ensures Start(i + 1, size) == Start(i, size) + size
  {
  }

  // ---- ordered insertion ----

  function Insert(s: seq<nat>, x: nat): seq<nat> {
    if s == [] || x < s[0] then [x] + s
    else if x == s[0] then s
    else [s[0]] + Insert(s[1..], x)
  }

  lemma {:induction false} InsertLast(s: seq<nat>, x: nat)
    requires forall i | 0 <= i < |s| :: s[i] < x
    ensures Insert(s, x) == s + [x]
  {
    if s != [] { InsertLast(s[1..], x); }
  }

  /** The slice that a key falls into contains its place. */
  lemma {:induction false} KeyInSlice(k: nat, slices: nat, bitShift: nat)
    requires k < TWO_TO_THE_64 && slices * Pow2(bitShift) == TWO_TO_THE_64
    ensures var i := k / Pow2(bitShift);
            i < slices && Start(i, Pow2(bitShift)) <= k && (i < slices - 1 ==> k < Start(i + 1, Pow2(bitShift)))
  {
    var size := Pow2(bitShift);
    var i := k / size;
    assert i * size <= k < i * size + size;
    StartStep(i, size);
    BelowProduct(i, slices, size, k);
  }

  lemma BelowProduct(i: nat, slices: nat, size: nat, k: nat)
    requires i * size <= k < slices * size
    ensures i < slices
  {
    if i >= slices { MulMonotone(slices, i, size); }
  }

  class ImprovedMap {
    var bitShift: nat
    var slices: nat
    var sets: array<seq<nat>>
    var lastKey: nat
    ghost var keys: seq<nat>

    ghost predicate Valid()
      reads this, sets
    {
      && IsKeySet(keys) && keys != [] && slices > 0 && sets.Length == slices
      && lastKey == (if keys[0] == 0 then 0 else keys[|keys|-1])
      && Shifted(slices, bitShift)
      && Sliced(sets[..], keys, SliceSize(slices, bitShift), slices)
    }

    /** Distributes the keys; initSlices is rounded up to a power of two, 0 means one slice per key. */
    constructor (initSlices: nat, initKeys: seq<nat>)
      requires IsKeySet(initKeys) && initKeys != [] && initSlices <= 0x8000_0000_0000_0000
               && |initKeys| <= 0x8000_0000_0000_0000
      ensures Valid() && keys == initKeys
      ensures slices == Pow2(CeilLog2(if initSlices == 0 then |initKeys| else initSlices))
    {
      var wanted := if initSlices == 0 then |initKeys| else initSlices;
      var keyShift := CeilLog2(wanted);
      ShiftFits(wanted);
      keys := initKeys;
      lastKey := if initKeys[0] == 0 then 0 else initKeys[|initKeys|-1];
      slices := if wanted == 1 then 1 else Pow2(keyShift);
      bitShift := if wanted == 1 then 64 else 64 - keyShift;
      new;
      sets := new seq<nat>[slices](_ => []);
      FillSlices(sets, initKeys, SliceSize(slices, bitShift));
    }

    method FindClosest(key: nat) returns (closest: nat)
      requires Valid() && key < TWO_TO_THE_64
      ensures closest == RingPredecessor(keys, key)
    {
      var sliceKey := SliceKey(key, bitShift, slices);
      FindsAmong(keys, slices, SliceSize(slices, bitShift), sliceKey, key, sets[..], lastKey);
      closest := FindInSlice(sets[sliceKey], key, lastKey);
    }
  }

  /** The slices share the key space evenly; a single slice has it all. */
  ghost predicate Shifted(slices: nat, bitShift: nat) {
    if slices == 1 then bitShift == 64 else bitShift < 64 && slices * Pow2(bitShift) == TWO_TO_THE_64
  }

  /** The slice that a key falls into. */
  method SliceKey(key: nat, bitShift: nat, ghost slices: nat) returns (i: nat)
    requires key < TWO_TO_THE_64 && slices > 0 && Shifted(slices, bitShift)
    ensures i < slices && InSlice(key, slices, SliceSize(slices, bitShift), i)
  {
    i := 0;
    if bitShift != 64 {
      i := key / Pow2(bitShift);
      KeyInSlice(key, slices, bitShift);
    }
  }

  /** The key lies in the range of slice i; that of the last slice has no end. */
  ghost predicate InSlice(key: nat, slices: nat, size: nat, i: nat) {
    Start(i, size) <= key && (i < slices - 1 ==> key < Start(i + 1, size))
  }

  /** The first n of the slices are those of the keys. */
  ghost predicate Sliced(sets: seq<seq<nat>>, keys: seq<nat>, size: nat, n: nat)
    requires Ascending(keys)
  {
    n <= |sets| && forall i | 0 <= i < n :: SlicedAt(sets, keys, size, i)
  }

  ghost predicate SlicedAt(sets: seq<seq<nat>>, keys: seq<nat>, size: nat, i: nat)
    requires Ascending(keys) && i < |sets|
  {
    sets[i] == SliceIn(keys, |sets|, size, i)
  }

  lemma SliceAt(sets: seq<seq<nat>>, keys: seq<nat>, size: nat, n: nat, i: nat)
    requires Ascending(keys) && Sliced(sets, keys, size, n) && i < n
    ensures sets[i] == SliceIn(keys, |sets|, size, i)
  {
    assert SlicedAt(sets, keys, size, i);
  }

  lemma OneMoreSliced(sets: seq<seq<nat>>, more: seq<seq<nat>>, keys: seq<nat>, size: nat, n: nat)
    requires Ascending(keys) && Sliced(sets, keys, size, n) && n < |sets| == |more| && more == sets[n := more[n]]
    requires more[n] == SliceIn(keys, |sets|, size, n)
    ensures Sliced(more, keys, size, n + 1)
  {
    forall i | 0 <= i < n + 1 ensures SlicedAt(more, keys, size, i) {
      if i < n { SliceAt(sets, keys, size, n, i); }
    }
  }

  method FindInSlice(slice: seq<nat>, key: nat, lastKey: nat) returns (closest: nat)
    requires slice != [] ==> slice[0] <= key
    ensures closest == if slice == [] || Floor(slice, key) == 0 then lastKey else Floor(slice, key)
  {
    if |slice| == 0 { return lastKey; }
    var up := LowerBound(slice, key);
    if up == |slice| || slice[up] > key { up := up - 1; }
    if slice[up] == 0 { return lastKey; }
    closest := slice[up];
  }

  /** A single slice is one short of the whole key space; nothing depends on where it ends. */
  function SliceSize(slices: nat, bitShift: nat): nat {
    if slices == 1 then TWO_TO_THE_64 - 1 else Pow2(bitShift)
  }

  lemma FindsAmong(keys: seq<nat>, slices: nat, size: nat, i: nat, k: nat, sets: seq<seq<nat>>, lastKey: nat)
    requires IsKeySet(keys) && keys != [] && i < slices == |sets| && InSlice(k, slices, size, i)
    requires Sliced(sets, keys, size, slices) && lastKey == if keys[0] == 0 then 0 else keys[|keys|-1]
    ensures sets[i] != [] && sets[i][0] <= k
    ensures RingPredecessor(keys, k) == if Floor(sets[i], k) == 0 then lastKey else Floor(sets[i], k)
  {
    SliceAt(sets, keys, size, slices, i);
    FindsInSlice(keys, slices, size, i, k, sets[i]);
  }

  lemma FindsInSlice(keys: seq<nat>, slices: nat, size: nat, i: nat, k: nat, slice: seq<nat>)
    requires IsKeySet(keys) && keys != [] && i < slices && InSlice(k, slices, size, i)
    requires slice == SliceIn(keys, slices, size, i)
    ensures var lastKey := if keys[0] == 0 then 0 else keys[|keys|-1];
            && slice != [] && slice[0] <= k
            && RingPredecessor(keys, k) == if Floor(slice, k) == 0 then lastKey else Floor(slice, k)
  {
    var lo := LowerBound(keys, Start(i, size));
    var hi := if i == slices - 1 then |keys| else LowerBound(keys, Start(i + 1, size));
    StartStep(i, size);
    LowerBoundMonotone(keys, Start(i, size), Start(i + 1, size));
    SliceFinds(keys, Start(i, size), lo, hi, k);
  }

  lemma {:induction false} ShiftFits(wanted: nat)
    requires 0 < wanted <= 0x8000_0000_0000_0000
    ensures var s := CeilLog2(wanted);
            s < 64 && (wanted > 1 ==> 0 < s && Pow2(s) > 1 && Pow2(s) * Pow2(64 - s) == TWO_TO_THE_64)
    ensures CeilLog2(1) == 0 && Pow2(0) == 1
  {
    var s := CeilLog2(wanted);
    Pow2Of63();
    CeilLog2Bounds(wanted);
    if s >= 64 { Pow2Monotone(63, s - 1); }
    if wanted > 1 { Pow2Sum(s, 64 - s); }
  }

  lemma Pow2Of63()
    ensures Pow2(63) == 0x8000_0000_0000_0000 && Pow2(64) == TWO_TO_THE_64
  {
    assert Pow2(8) == 256;
    Pow2Sum(8, 8);
    Pow2Sum(16, 16);
    Pow2Sum(32, 32);
    assert Pow2(64) == 2 * Pow2(63);
  }

  method FillSlices(sets: array<seq<nat>>, keys: seq<nat>, size: nat)
    requires IsKeySet(keys) && keys != [] && sets.Length > 0
    modifies sets
    ensures Sliced(sets[..], keys, size, sets.Length)
  {
    var key: nat, previousKey: nat, firstPlaced := 0, 0, false;
    LowerBoundAt(keys, 0, 0);
    for slice := 0 to sets.Length
      invariant Reached(keys, key, previousKey, firstPlaced) && key == Begin(keys, sets.Length, size, slice)
      invariant Sliced(sets[..], keys, size, slice)
    {
      ghost var before := sets[..];
      var filled;
      filled, key, previousKey, firstPlaced :=
        FillNext(keys, sets.Length, size, slice, key, previousKey, firstPlaced);
      sets[slice] := filled;
      OneMoreSliced(before, sets[..], keys, size, slice);
    }
  }

  /** What is known about the keys before position `key`: whether there are any, and the last of them. */
  ghost predicate Reached(keys: seq<nat>, key: nat, previousKey: nat, firstPlaced: bool) {
    key <= |keys| && firstPlaced == (key > 0) && (key > 0 ==> previousKey == keys[key-1])
  }

  /** The position of the first key of slice i. */
  ghost function Begin(keys: seq<nat>, slices: nat, size: nat, i: nat): nat {
    if i < slices then LowerBound(keys, Start(i, size)) else |keys|
  }

  method FillNext(keys: seq<nat>, slices: nat, size: nat, i: nat, key: nat, previousKey: nat, firstPlaced: bool)
    returns (slice: seq<nat>, next: nat, previousKey': nat, firstPlaced': bool)
    requires IsKeySet(keys) && i < slices && key == Begin(keys, slices, size, i)
    requires Reached(keys, key, previousKey, firstPlaced)
    ensures Reached(keys, next, previousKey', firstPlaced') && next == Begin(keys, slices, size, i + 1)
    ensures slice == SliceIn(keys, slices, size, i)
  {
    slice, next := FillSlice(keys, Start(i, size), i == slices - 1, size, key, previousKey, firstPlaced);
    IsSliceIn(keys, slices, size, i, key, next, slice);
    previousKey', firstPlaced' := previousKey, firstPlaced;
    if next > key { previousKey', firstPlaced' := keys[next-1], true; }
  }

  lemma {:induction false} IsSliceIn(keys: seq<nat>, slices: nat, size: nat, i: nat, lo: nat, hi: nat, slice: seq<nat>)
    requires Ascending(keys) && i < slices && lo == LowerBound(keys, Start(i, size)) && lo <= hi
    requires hi == if i == slices - 1 then |keys| else LowerBound(keys, Start(i, size) + size)
    requires slice == SliceOf(keys, Start(i, size), lo, hi)
    ensures slice == SliceIn(keys, slices, size, i) && Start(i + 1, size) == Start(i, size) + size
  {
    StartStep(i, size);
  }

  /** The keys of one slice, taken from position `key` on. */
  method FillSlice(keys: seq<nat>, start: nat, isLast: bool, size: nat, key: nat, previousKey: nat, firstPlaced: bool)
    returns (slice: seq<nat>, next: nat)
    requires IsKeySet(keys) && key == LowerBound(keys, start)
    requires firstPlaced == (key > 0) && (key > 0 ==> previousKey == keys[key-1])
    ensures next == if isLast then |keys| else LowerBound(keys, start + size)
    ensures key <= next && slice == SliceOf(keys, start, key, next)
  {
    slice := [];
    if key == |keys| || keys[key] > start {
      slice := Insert(slice, if firstPlaced then previousKey else 0);
    }
    ghost var head := Head(keys, start, key);
    next := key;
    while next < |keys| && (isLast || (keys[next] >= start && keys[next] < start + size))
      invariant key <= next <= |keys| && slice == head + keys[key..next]
      invariant !isLast ==> next == key || keys[next-1] < start + size
    {
      AddKey(keys, start, key, next, head);
      slice := Insert(slice, keys[next]);
      next := next + 1;
    }
    if !isLast { EndOfSlice(keys, start, size, key, next); }
  }

  lemma EndOfSlice(keys: seq<nat>, start: nat, size: nat, key: nat, next: nat)
    requires Ascending(keys) && key == LowerBound(keys, start) && key <= next <= |keys|
    requires next == key || keys[next-1] < start + size
    requires next < |keys| ==> keys[next] < start || keys[next] >= start + size
    ensures next == LowerBound(keys, start + size)
  {
    AllFrom(keys, start, key);
    LowerBoundAt(keys, start + size, next);
  }

  lemma {:induction false} AllFrom(keys: seq<nat>, start: nat, key: nat)
    requires Ascending(keys) && key == LowerBound(keys, start)
    ensures forall i | key <= i < |keys| :: keys[i] >= start
  {
  }

  /** A key in order is inserted at the end of the slice. */
  lemma {:induction false} AddKey(keys: seq<nat>, start: nat, key: nat, next: nat, head: seq<nat>)
    requires Ascending(keys) && key == LowerBound(keys, start) && key <= next < |keys|
    requires head == Head(keys, start, key)
    ensures Insert(head + keys[key..next], keys[next]) == head + keys[key..next+1]
  {
    HeadBefore(keys, start, key, head);
    OneKeyMore(keys, key, next);
    InsertLast(head + keys[key..next], keys[next]);
    assert head + (keys[key..next] + [keys[next]]) == (head + keys[key..next]) + [keys[next]];
  }

  lemma OneKeyMore(keys: seq<nat>, key: nat, next: nat)
    requires key <= next < |keys|
    ensures keys[key..next+1] == keys[key..next] + [keys[next]]
  {
  }

  lemma {:induction false} HeadBefore(keys: seq<nat>, start: nat, key: nat, head: seq<nat>)
    requires Ascending(keys) && key == LowerBound(keys, start) && key < |keys| && head == Head(keys, start, key)
    ensures forall i, j | 0 <= i < |head| && key <= j < |keys| :: head[i] < keys[j]
  {
    AllFrom(keys, start, key);
  }
}
