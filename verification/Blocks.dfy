/**
 The block address space of Random Slicing: `owners[x]` is the disk that owns block x.
 Counting, reassigning and comparing owners, independent of how intervals are stored.
 */
module Blocks {
  import opened Sums

  /** Number of blocks of [lo, hi) owned by id. */
  function Count(owners: seq<nat>, lo: nat, hi: nat, id: nat): nat
    requires lo <= hi <= |owners|
    decreases hi
  {
    if lo == hi then 0
    else Count(owners, lo, hi - 1, id) + (if owners[hi-1] == id then 1 else 0)
  }

  /** Number of blocks owned by id in the whole space. */
  function Owned(owners: seq<nat>, id: nat): nat {
    Count(owners, 0, |owners|, id)
  }

  lemma {:induction false} CountBound(owners: seq<nat>, lo: nat, hi: nat, id: nat)
    requires lo <= hi <= |owners|
    ensures Count(owners, lo, hi, id) <= hi - lo
    decreases hi
  {
    if lo < hi { CountBound(owners, lo, hi - 1, id); }
  }

  lemma {:induction false} CountSplit(owners: seq<nat>, lo: nat, mid: nat, hi: nat, id: nat)
    requires lo <= mid <= hi <= |owners|
    ensures Count(owners, lo, hi, id) == Count(owners, lo, mid, id) + Count(owners, mid, hi, id)
    decreases hi
  {
    if mid < hi { CountSplit(owners, lo, mid, hi - 1, id); }
  }

  lemma {:induction false} CountUniform(owners: seq<nat>, lo: nat, hi: nat, p: nat, id: nat)
    requires lo <= hi <= |owners|
    requires forall x | lo <= x < hi :: owners[x] == p
    ensures Count(owners, lo, hi, id) == if id == p then hi - lo else 0
    decreases hi
  {
    if lo < hi { CountUniform(owners, lo, hi - 1, p, id); }
  }

  lemma {:induction false} CountAbsent(owners: seq<nat>, lo: nat, hi: nat, id: nat)
    requires lo <= hi <= |owners|
    requires forall x | lo <= x < hi :: owners[x] != id
    ensures Count(owners, lo, hi, id) == 0
    decreases hi
  {
    if lo < hi { CountAbsent(owners, lo, hi - 1, id); }
  }

  lemma {:induction false} CountAgree(a: seq<nat>, b: seq<nat>, lo: nat, hi: nat, id: nat)
    requires lo <= hi <= |a| && hi <= |b|
    requires forall x | lo <= x < hi :: a[x] == b[x]
    ensures Count(a, lo, hi, id) == Count(b, lo, hi, id)
    decreases hi
  {
    if lo < hi { CountAgree(a, b, lo, hi - 1, id); }
  }

  lemma {:induction false} CountUpdate(owners: seq<nat>, hi: nat, x: nat, v: nat, id: nat)
    requires hi <= |owners| && x < |owners|
    ensures Count(owners[x := v], 0, hi, id)
         == Count(owners, 0, hi, id)
            - (if x < hi && owners[x] == id then 1 else 0)
            + (if x < hi && v == id then 1 else 0)
    decreases hi
  {
    if hi > 0 {
      CountUpdate(owners, hi - 1, x, v, id);
    }
  }

  /** The owners after handing [lo, hi) to id. */
  function Fill(owners: seq<nat>, lo: nat, hi: nat, id: nat): (r: seq<nat>)
    requires lo <= hi <= |owners|
    ensures |r| == |owners|
    ensures forall x | 0 <= x < |r| :: r[x] == if lo <= x < hi then id else owners[x]
  {
    owners[..lo] + seq(hi - lo, _ => id) + owners[hi..]
  }

  /** Number of blocks below hi whose owner is not in ids. */
  function Outside(owners: seq<nat>, hi: nat, ids: set<nat>): nat
    requires hi <= |owners|
  {
    if hi == 0 then 0
    else Outside(owners, hi - 1, ids) + (if owners[hi-1] in ids then 0 else 1)
  }

  /** Every block is owned either by one of the counted disks or by a disk outside them. */
  lemma {:induction false} CountPartition(owners: seq<nat>, hi: nat, sizes: map<nat, nat>)
    requires hi <= |owners|
    requires forall id | id in sizes :: sizes[id] == Count(owners, 0, hi, id)
    ensures SumMap(sizes) + Outside(owners, hi, sizes.Keys) == hi
  {
    if hi == 0 {
      SumMapZero(sizes);
    } else {
      var before := map id | id in sizes :: Count(owners, 0, hi - 1, id);
      CountPartition(owners, hi - 1, before);
      assert before.Keys == sizes.Keys;
      var p := owners[hi-1];
      if p in sizes {
        SumMapUpdate(before, p, before[p] + 1);
        assert before[p := before[p] + 1] == sizes;
      } else {
        assert before == sizes;
      }
    }
  }

  /** Number of blocks below hi whose owner differs between a and b. */
  function Moved(a: seq<nat>, b: seq<nat>, hi: nat): nat
    requires hi <= |a| && hi <= |b|
  {
    if hi == 0 then 0 else Moved(a, b, hi - 1) + (if a[hi-1] != b[hi-1] then 1 else 0)
  }

  /** A block that ends outside the old disks has moved; when nothing else moved, this is the whole movement. */
  lemma {:induction false} MovedOutside(a: seq<nat>, b: seq<nat>, hi: nat, ids: set<nat>)
    requires hi <= |a| && hi <= |b|
    requires forall x | 0 <= x < hi :: a[x] in ids
    ensures Outside(b, hi, ids) <= Moved(a, b, hi)
    ensures (forall x | 0 <= x < hi && a[x] != b[x] :: b[x] !in ids) ==> Moved(a, b, hi) == Outside(b, hi, ids)
  {
    if hi > 0 { MovedOutside(a, b, hi - 1, ids); }
  }
}
