/**
 Free space of Random Slicing: lists of block intervals taken from old disks, and what it means
 to hand their blocks, in list order, to the requests of new disks.
 */
module FreeSpace {
  import opened Sequences
  import opened Sums
  import opened Blocks

  /** The blocks lo, lo + 1, ..., hi - 1. */
  datatype Interval = Interval(lo: nat, hi: nat)

  /** A partition (disk) and the number of blocks it is to receive. */
  datatype Request = Request(id: nat, size: nat)

  function RangeOf(i: Interval): (r: seq<nat>)
    ensures |r| == if i.lo <= i.hi then i.hi - i.lo else 0
    ensures forall k | 0 <= k < |r| :: r[k] == i.lo + k
  {
    if i.lo <= i.hi then seq(i.hi - i.lo, k requires 0 <= k => i.lo + k) else []
  }

  function Copies(r: Request): (s: seq<nat>)
    ensures |s| == r.size && forall k | 0 <= k < |s| :: s[k] == r.id
  {
    seq(r.size, _ => r.id)
  }

  function Flatten<T>(s: seq<T>, f: T -> seq<nat>): seq<nat> {
    if s == [] then [] else f(s[0]) + Flatten(s[1..], f)
  }

  /** Every block of the free list, in list order. */
  function BlocksOf(free: seq<Interval>): seq<nat> { Flatten(free, RangeOf) }

  /** The receiving partition of every requested block, in request order. */
  function Receivers(requests: seq<Request>): seq<nat> { Flatten(requests, Copies) }

  lemma {:induction false} FlattenAppend<T>(a: seq<T>, b: seq<T>, f: T -> seq<nat>)
    ensures Flatten(a + b, f) == Flatten(a, f) + Flatten(b, f)
  {
    if a == [] {
      assert a + b == b;
    } else {
      assert (a + b)[1..] == a[1..] + b;
      FlattenAppend(a[1..], b, f);
    }
  }

  lemma {:induction false} FlattenPush<T>(s: seq<T>, x: T, f: T -> seq<nat>)
    ensures Flatten(s + [x], f) == Flatten(s, f) + f(x)
  {
    FlattenAppend(s, [x], f);
    assert Flatten([x], f) == f(x) + Flatten([x][1..], f);
  }

  lemma RemoveFirst<T>(a: seq<T>, b: seq<T>, k: nat)
    requires a != [] && multiset(a) == multiset(b) && k < |b| && b[k] == a[0]
    ensures multiset(a[1..]) == multiset(b[..k] + b[k+1..])
  {
    assert a == [a[0]] + a[1..];
    assert b == b[..k] + [b[k]] + b[k+1..];
    assert multiset(a[1..]) == multiset(a) - multiset{a[0]};
    assert multiset(b[..k] + b[k+1..]) == multiset(b) - multiset{b[k]};
  }

  /** Sorting a list does not change which blocks, or how many of each receiver, it stands for. */
  lemma {:induction false} FlattenPermutation<T>(a: seq<T>, b: seq<T>, f: T -> seq<nat>)
    requires multiset(a) == multiset(b)
    ensures multiset(Flatten(a, f)) == multiset(Flatten(b, f))
  {
    if a == [] {
      assert |multiset(b)| == 0;
    } else {
      assert a[0] in multiset(b);
      var k :| 0 <= k < |b| && b[k] == a[0];
      assert b == b[..k] + ([b[k]] + b[k+1..]);
      RemoveFirst(a, b, k);
      FlattenPermutation(a[1..], b[..k] + b[k+1..], f);
      FlattenAppend(b[..k], b[k+1..], f);
      FlattenAppend(b[..k], [b[k]] + b[k+1..], f);
      assert ([b[k]] + b[k+1..])[1..] == b[k+1..];
    }
  }

  lemma {:induction false} FlattenMember<T>(s: seq<T>, f: T -> seq<nat>, x: nat)
    ensures x in Flatten(s, f) <==> exists i :: 0 <= i < |s| && x in f(s[i])
  {
    if s != [] {
      FlattenMember(s[1..], f, x);
      if x in Flatten(s[1..], f) {
        var i :| 0 <= i < |s[1..]| && x in f(s[1..][i]);
        assert x in f(s[i + 1]);
      }
      if i :| 0 <= i < |s| && x in f(s[i]) {
        assert i > 0 ==> x in f(s[1..][i - 1]);
      }
    }
  }

  lemma {:induction false} DistinctMultiset(s: seq<nat>)
    ensures Distinct(s) <==> forall x: nat :: multiset(s)[x] <= 1
  {
    if s != [] {
      var n := |s| - 1;
      var t := s[..n];
      assert s == t + [s[n]];
      DistinctMultiset(t);
      assert forall x: nat :: multiset(s)[x] == multiset(t)[x] + (if x == s[n] then 1 else 0);
      assert s[n] in t <==> s[n] in multiset(t);
      if Distinct(s) {
        assert Distinct(t) && s[n] !in t;
      } else if Distinct(t) {
        var i :| 0 <= i < n && s[i] == s[n];
        assert t[i] in t;
        assert multiset(s)[s[n]] >= 2;
      } else {
        var x: nat :| multiset(t)[x] > 1;
        assert multiset(s)[x] > 1;
      }
    }
  }

  /** Every listed block lies in an address space of n blocks. */
  ghost predicate InSpace(blocks: seq<nat>, n: nat) {
    forall i | 0 <= i < |blocks| :: blocks[i] < n
  }

  /** owners after giving blocks[0] to ids[0], blocks[1] to ids[1], and so on until either list ends. */
  function Assign(owners: seq<nat>, blocks: seq<nat>, ids: seq<nat>): (r: seq<nat>)
    requires InSpace(blocks, |owners|)
    ensures |r| == |owners|
    decreases |blocks|
  {
    if blocks == [] || ids == [] then owners
    else Assign(owners[blocks[0] := ids[0]], blocks[1..], ids[1..])
  }

  /** Handing a run of consecutive blocks to one receiver is one range insertion. */
  lemma {:induction false} AssignRun(owners: seq<nat>, lo: nat, n: nat, id: nat, blocks: seq<nat>, ids: seq<nat>)
    requires lo + n <= |owners| && InSpace(blocks, |owners|)
    ensures InSpace(RangeOf(Interval(lo, lo + n)) + blocks, |owners|)
    ensures Assign(owners, RangeOf(Interval(lo, lo + n)) + blocks, Copies(Request(id, n)) + ids)
         == Assign(Fill(owners, lo, lo + n, id), blocks, ids)
    decreases n
  {
    var bs := RangeOf(Interval(lo, lo + n)) + blocks;
    var rs := Copies(Request(id, n)) + ids;
    if n == 0 {
      assert bs == blocks && rs == ids;
      assert Fill(owners, lo, lo, id) == owners;
    } else {
      assert bs[1..] == RangeOf(Interval(lo + 1, lo + 1 + (n - 1))) + blocks;
      assert rs[1..] == Copies(Request(id, n - 1)) + ids;
      AssignRun(owners[lo := id], lo + 1, n - 1, id, blocks, ids);
      assert Fill(owners[lo := id], lo + 1, lo + n, id) == Fill(owners, lo, lo + n, id);
    }
  }

  /** How many of the listed blocks id owns. */
  function Held(owners: seq<nat>, blocks: seq<nat>, id: nat): nat
    requires InSpace(blocks, |owners|)
  {
    if blocks == [] then 0
    else Held(owners, blocks[1..], id) + (if owners[blocks[0]] == id then 1 else 0)
  }

  lemma {:induction false} HeldAppend(owners: seq<nat>, a: seq<nat>, b: seq<nat>, id: nat)
    requires InSpace(a + b, |owners|)
    ensures InSpace(a, |owners|) && InSpace(b, |owners|)
    ensures Held(owners, a + b, id) == Held(owners, a, id) + Held(owners, b, id)
  {
    assert forall i | 0 <= i < |a| :: (a + b)[i] == a[i];
    assert forall i | 0 <= i < |b| :: (a + b)[|a| + i] == b[i];
    if a == [] {
      assert a + b == b;
    } else {
      assert (a + b)[1..] == a[1..] + b;
      HeldAppend(owners, a[1..], b, id);
    }
  }

  lemma {:induction false} HeldPermutation(owners: seq<nat>, a: seq<nat>, b: seq<nat>, id: nat)
    requires multiset(a) == multiset(b)
    requires InSpace(a, |owners|)
    ensures InSpace(b, |owners|)
    ensures Held(owners, a, id) == Held(owners, b, id)
  {
    forall i | 0 <= i < |b| ensures b[i] < |owners| {
      assert b[i] in multiset(b);
      assert b[i] in a;
    }
    if a == [] {
      assert |multiset(b)| == 0;
    } else {
      assert a[0] in multiset(b);
      var k :| 0 <= k < |b| && b[k] == a[0];
      assert b == b[..k] + ([b[k]] + b[k+1..]);
      var rest := b[..k] + b[k+1..];
      RemoveFirst(a, b, k);
      HeldPermutation(owners, a[1..], rest, id);
      HeldAppend(owners, b[..k], b[k+1..], id);
      HeldAppend(owners, b[..k], [b[k]] + b[k+1..], id);
      assert ([b[k]] + b[k+1..])[1..] == b[k+1..];
    }
  }

  lemma {:induction false} HeldUpdate(owners: seq<nat>, x: nat, v: nat, blocks: seq<nat>, id: nat)
    requires x < |owners| && x !in blocks && InSpace(blocks, |owners|)
    ensures Held(owners[x := v], blocks, id) == Held(owners, blocks, id)
  {
    if blocks != [] { HeldUpdate(owners, x, v, blocks[1..], id); }
  }

  lemma {:induction false} HeldRange(owners: seq<nat>, lo: nat, hi: nat, id: nat)
    requires lo <= hi <= |owners|
    ensures Held(owners, RangeOf(Interval(lo, hi)), id) == Count(owners, lo, hi, id)
    decreases hi
  {
    if lo < hi {
      assert RangeOf(Interval(lo, hi)) == RangeOf(Interval(lo, hi - 1)) + [hi - 1];
      HeldRange(owners, lo, hi - 1, id);
      HeldAppend(owners, RangeOf(Interval(lo, hi - 1)), [hi - 1], id);
    }
  }

  /** What an assignment of distinct blocks does to every disk's holding, and to every single block. */
  lemma {:induction false} AssignEffect(owners: seq<nat>, blocks: seq<nat>, ids: seq<nat>)
    requires Distinct(blocks) && |blocks| == |ids| && InSpace(blocks, |owners|)
    ensures forall id: nat :: Owned(Assign(owners, blocks, ids), id)
                           == Owned(owners, id) - Held(owners, blocks, id) + multiset(ids)[id]
    ensures forall x | 0 <= x < |owners| && x !in blocks :: Assign(owners, blocks, ids)[x] == owners[x]
    ensures forall k | 0 <= k < |blocks| :: Assign(owners, blocks, ids)[blocks[k]] == ids[k]
    decreases |blocks|
  {
    if blocks != [] {
      var b, v := blocks[0], ids[0];
      var next := owners[b := v];
      assert Distinct(blocks[1..]);
      AssignEffect(next, blocks[1..], ids[1..]);
      assert ids == [v] + ids[1..];
      forall id: nat ensures Owned(Assign(owners, blocks, ids), id)
                          == Owned(owners, id) - Held(owners, blocks, id) + multiset(ids)[id]
      {
        CountUpdate(owners, |owners|, b, v, id);
        HeldUpdate(owners, b, v, blocks[1..], id);
        assert Owned(Assign(next, blocks[1..], ids[1..]), id)
            == Owned(next, id) - Held(next, blocks[1..], id) + multiset(ids[1..])[id];
      }
      forall k | 0 <= k < |blocks| ensures Assign(owners, blocks, ids)[blocks[k]] == ids[k] {
        if k == 0 {
          assert b !in blocks[1..];
        } else {
          assert Assign(next, blocks[1..], ids[1..])[blocks[1..][k-1]] == ids[1..][k-1];
        }
      }
    }
  }

  /** With pairwise different receivers, each receives exactly what it requested and nobody else anything. */
  lemma {:induction false} ReceiversCount(requests: seq<Request>, id: nat)
    requires forall i, j | 0 <= i < j < |requests| :: requests[i].id != requests[j].id
    ensures forall k | 0 <= k < |requests| && requests[k].id == id ::
            multiset(Receivers(requests))[id] == requests[k].size
    ensures (forall k | 0 <= k < |requests| :: requests[k].id != id) ==> multiset(Receivers(requests))[id] == 0
  {
    if requests != [] {
      CopiesCount(requests[0], id);
      ReceiversCount(requests[1..], id);
      forall k | 0 <= k < |requests| && requests[k].id == id
        ensures multiset(Receivers(requests))[id] == requests[k].size
      {
        if k > 0 {
          assert requests[1..][k-1].id == id;
        } else {
          assert forall j | 0 <= j < |requests[1..]| :: requests[1..][j].id != id;
        }
      }
    }
  }

  lemma {:induction false} CopiesCount(r: Request, id: nat)
    ensures multiset(Copies(r))[id] == if id == r.id then r.size else 0
    decreases r.size
  {
    if r.size > 0 {
      CopiesCount(Request(r.id, r.size - 1), id);
      assert Copies(r) == Copies(Request(r.id, r.size - 1)) + [r.id];
    }
  }

  function Sizes(requests: seq<Request>): (r: seq<nat>)
    ensures |r| == |requests| && forall i | 0 <= i < |r| :: r[i] == requests[i].size
  {
    seq(|requests|, i requires 0 <= i < |requests| => requests[i].size)
  }

  lemma {:induction false} ReceiversLength(requests: seq<Request>)
    ensures |Receivers(requests)| == SumSeq(Sizes(requests))
  {
    if requests != [] {
      ReceiversLength(requests[1..]);
      assert Sizes(requests) == [requests[0].size] + Sizes(requests[1..]);
      SumSeqAppend([requests[0].size], Sizes(requests[1..]));
      assert [requests[0].size][..0] == [];
    }
  }

  // ---- lists collected in ascending order ----

  /** Non-empty intervals in ascending order, no two touching, all below `bound`. */
  ghost predicate Separated(free: seq<Interval>, bound: nat) {
    && (forall i | 0 <= i < |free| :: free[i].lo < free[i].hi <= bound)
    && (forall i, j | 0 <= i < j < |free| :: free[i].hi < free[j].lo)
  }

  ghost predicate InFree(free: seq<Interval>, x: nat) {
    exists i :: 0 <= i < |free| && free[i].lo <= x < free[i].hi
  }

  /** Appends [lo, hi), extending the last interval when it ends at lo. */
  function AddInterval(free: seq<Interval>, lo: nat, hi: nat): seq<Interval> {
    if free != [] && free[|free|-1].hi == lo
    then free[..|free|-1] + [Interval(free[|free|-1].lo, hi)]
    else free + [Interval(lo, hi)]
  }

  lemma AddIntervalKeeps(free: seq<Interval>, bound: nat, lo: nat, hi: nat, bound': nat)
    requires Separated(free, bound) && bound <= lo < hi <= bound'
    ensures Separated(AddInterval(free, lo, hi), bound')
    ensures forall x: nat :: InFree(AddInterval(free, lo, hi), x) <==> InFree(free, x) || lo <= x < hi
  {
    var added := AddInterval(free, lo, hi);
    var n := |free|;
    forall x: nat ensures InFree(added, x) <==> InFree(free, x) || lo <= x < hi {
      if lo <= x < hi {
        assert added[|added|-1].lo <= x < added[|added|-1].hi;
      }
      if i :| 0 <= i < n && free[i].lo <= x < free[i].hi {
        assert added[i].lo <= x < added[i].hi;
      }
      if i :| 0 <= i < |added| && added[i].lo <= x < added[i].hi {
        if i < n && !(free[i].lo <= x < free[i].hi) {
          assert i == n - 1 && lo <= x < hi;
        }
      }
    }
  }

  lemma SeparatedMembers(free: seq<Interval>, bound: nat)
    requires Separated(free, bound)
    ensures forall x: nat :: x in BlocksOf(free) <==> InFree(free, x)
    ensures InSpace(BlocksOf(free), bound)
  {
    forall x: nat ensures x in BlocksOf(free) <==> InFree(free, x) {
      FlattenMember(free, RangeOf, x);
      if i :| 0 <= i < |free| && free[i].lo <= x < free[i].hi {
        assert RangeOf(free[i])[x - free[i].lo] == x;
      }
    }
    forall i | 0 <= i < |BlocksOf(free)| ensures BlocksOf(free)[i] < bound {
      assert BlocksOf(free)[i] in BlocksOf(free);
      assert InFree(free, BlocksOf(free)[i]);
    }
  }

  lemma AddIntervalAppends(free: seq<Interval>, bound: nat, lo: nat, hi: nat)
    requires Separated(free, bound) && lo <= hi
    ensures BlocksOf(AddInterval(free, lo, hi)) == BlocksOf(free) + RangeOf(Interval(lo, hi))
  {
    if free != [] && free[|free|-1].hi == lo {
      var front, last := free[..|free|-1], free[|free|-1];
      assert free == front + [last];
      FlattenPush(front, last, RangeOf);
      FlattenPush(front, Interval(last.lo, hi), RangeOf);
      assert RangeOf(Interval(last.lo, hi)) == RangeOf(last) + RangeOf(Interval(lo, hi));
      var blocks := BlocksOf(front);
      assert blocks + (RangeOf(last) + RangeOf(Interval(lo, hi))) == blocks + RangeOf(last) + RangeOf(Interval(lo, hi));
    } else {
      FlattenPush(free, Interval(lo, hi), RangeOf);
    }
  }

  lemma {:induction false} AddIntervalHeld(owners: seq<nat>, free: seq<Interval>, lo: nat, hi: nat, id: nat)
    requires Separated(free, |owners|) && lo <= hi <= |owners|
    ensures InSpace(BlocksOf(free), |owners|) && InSpace(BlocksOf(AddInterval(free, lo, hi)), |owners|)
    ensures Held(owners, BlocksOf(AddInterval(free, lo, hi)), id)
         == Held(owners, BlocksOf(free), id) + Count(owners, lo, hi, id)
  {
    AddIntervalAppends(free, |owners|, lo, hi);
    SeparatedMembers(free, |owners|);
    HeldAppend(owners, BlocksOf(free), RangeOf(Interval(lo, hi)), id);
    HeldRange(owners, lo, hi, id);
  }

  /** An ascending list names every block once. */
  lemma {:induction false} SeparatedDistinct(free: seq<Interval>, bound: nat)
    requires Separated(free, bound)
    ensures Distinct(BlocksOf(free))
  {
    if free != [] {
      SeparatedDistinct(free[1..], bound);
      SeparatedMembers(free[1..], bound);
      var head, tail := RangeOf(free[0]), BlocksOf(free[1..]);
      forall k | 0 <= k < |tail| ensures tail[k] >= free[0].hi {
        assert InFree(free[1..], tail[k]);
      }
      assert BlocksOf(free) == head + tail;
    }
  }
}
