/**
 What one redistribution does, for either way of collecting and either way of reusing the space:
 every old partition loses exactly its quota, every new one receives exactly its request, a block
 moves only if it was collected, and no other way of reaching the same sizes moves fewer blocks.
 */
module Redistribution {
  import opened Sequences
  import opened Sums
  import opened Blocks
  import opened FreeSpace
  import opened Quotas
  import opened Collect

  lemma {:induction false} LeftoversAreZero(owners: seq<nat>, quotas: map<nat, nat>, free: seq<Interval>,
                                            left: map<nat, nat>)
    requires Swept(owners, quotas, free, left, |owners|)
    requires forall p | p in quotas :: quotas[p] <= Owned(owners, p)
    ensures forall p | p in quotas :: left[p] == 0 && Held(owners, BlocksOf(free), p) == quotas[p]
    ensures |BlocksOf(free)| == SumMap(quotas)
  {
    SumMapZero(left);
  }

  /** Properties of the block list and the receiver list that do not depend on the order of either. */
  lemma {:induction false} OrderIrrelevant(owners: seq<nat>, free: seq<Interval>, order: seq<Interval>,
                                           requests: seq<Request>, sorted: seq<Request>)
    requires Separated(free, |owners|)
    requires multiset(order) == multiset(free) && multiset(sorted) == multiset(requests)
    ensures InSpace(BlocksOf(free), |owners|) && InSpace(BlocksOf(order), |owners|)
    ensures Distinct(BlocksOf(order)) && |BlocksOf(order)| == |BlocksOf(free)|
    ensures forall x: nat :: x in BlocksOf(order) <==> InFree(free, x)
    ensures forall id: nat :: Held(owners, BlocksOf(order), id) == Held(owners, BlocksOf(free), id)
    ensures multiset(Receivers(sorted)) == multiset(Receivers(requests)) && |Receivers(sorted)| == |Receivers(requests)|
  {
    var a, b := BlocksOf(free), BlocksOf(order);
    FlattenPermutation(free, order, RangeOf);
    FlattenPermutation(requests, sorted, Copies);
    assert |multiset(a)| == |a| && |multiset(b)| == |b|;
    assert |multiset(Receivers(sorted))| == |Receivers(sorted)|
           && |multiset(Receivers(requests))| == |Receivers(requests)|;
    SeparatedDistinct(free, |owners|);
    SeparatedMembers(free, |owners|);
    DistinctMultiset(a);
    DistinctMultiset(b);
    forall x: nat ensures x in b <==> InFree(free, x) {
      assert x in b <==> x in multiset(b);
      assert x in a <==> x in multiset(a);
    }
    HeldPermutation(owners, a, b, 0);
    forall id: nat ensures Held(owners, b, id) == Held(owners, a, id) {
      HeldPermutation(owners, a, b, id);
    }
  }

  lemma {:induction false} Effect(owners: seq<nat>, quotas: map<nat, nat>, free: seq<Interval>, left: map<nat, nat>,
                                  order: seq<Interval>, requests: seq<Request>, sorted: seq<Request>)
    requires Swept(owners, quotas, free, left, |owners|)
    requires forall x | 0 <= x < |owners| :: owners[x] in quotas
    requires forall p | p in quotas :: quotas[p] <= Owned(owners, p)
    requires multiset(order) == multiset(free) && multiset(sorted) == multiset(requests)
    requires Fresh(quotas, requests) && SumMap(quotas) == SumSeq(Sizes(requests))
    ensures InSpace(BlocksOf(order), |owners|)
    ensures var after := Assign(owners, BlocksOf(order), Receivers(sorted));
            Redistributed(owners, after, quotas, requests) &&
            forall x | 0 <= x < |owners| :: after[x] != owners[x] <==> InFree(free, x)
  {
    LeftoversAreZero(owners, quotas, free, left);
    OrderIrrelevant(owners, free, order, requests, sorted);
    ReceiversLength(requests);
    var blocks, ids := BlocksOf(order), Receivers(sorted);
    AssignedAmounts(owners, quotas, blocks, ids, requests);
    AssignedBlocks(owners, quotas, blocks, ids, requests, sorted);
  }

  lemma {:induction false} AssignedAmounts(owners: seq<nat>, quotas: map<nat, nat>, blocks: seq<nat>, ids: seq<nat>,
                                           requests: seq<Request>)
    requires InSpace(blocks, |owners|) && Distinct(blocks) && |blocks| == |ids|
    requires multiset(ids) == multiset(Receivers(requests)) && Fresh(quotas, requests)
    requires forall x | 0 <= x < |owners| :: owners[x] in quotas
    requires forall p | p in quotas :: Held(owners, blocks, p) == quotas[p]
    ensures var after := Assign(owners, blocks, ids);
            && (forall p | p in quotas :: Owned(after, p) == Owned(owners, p) - quotas[p])
            && (forall k | 0 <= k < |requests| :: Owned(after, requests[k].id) == requests[k].size)
  {
    AssignEffect(owners, blocks, ids);
    var after := Assign(owners, blocks, ids);
    forall p | p in quotas ensures Owned(after, p) == Owned(owners, p) - quotas[p] {
      ReceiversCount(requests, p);
    }
    forall k | 0 <= k < |requests| ensures Owned(after, requests[k].id) == requests[k].size {
      ReceiversCount(requests, requests[k].id);
      CountAbsent(owners, 0, |owners|, requests[k].id);
      HeldAbsent(owners, blocks, requests[k].id);
    }
  }

  lemma {:induction false} AssignedBlocks(owners: seq<nat>, quotas: map<nat, nat>, blocks: seq<nat>, ids: seq<nat>,
                                          requests: seq<Request>, sorted: seq<Request>)
    requires InSpace(blocks, |owners|) && Distinct(blocks) && |blocks| == |ids|
    requires ids == Receivers(sorted) && multiset(sorted) == multiset(requests) && Fresh(quotas, requests)
    requires forall x | 0 <= x < |owners| :: owners[x] in quotas
    ensures var after := Assign(owners, blocks, ids);
            forall x | 0 <= x < |owners| ::
              (after[x] != owners[x] <==> x in blocks) && (after[x] != owners[x] ==> Listed(requests, after[x]))
  {
    AssignEffect(owners, blocks, ids);
    var after := Assign(owners, blocks, ids);
    forall x | 0 <= x < |owners|
      ensures (after[x] != owners[x] <==> x in blocks) && (after[x] != owners[x] ==> Listed(requests, after[x]))
    {
      if x in blocks {
        var k :| 0 <= k < |blocks| && blocks[k] == x;
        ReceiverListed(requests, sorted, ids[k]);
      }
    }
  }

  /** The change of owners brought about by one redistribution. */
  ghost predicate Redistributed(before: seq<nat>, after: seq<nat>, quotas: map<nat, nat>, requests: seq<Request>) {
    && |after| == |before|
    && (forall p | p in quotas :: Owned(after, p) == Owned(before, p) - quotas[p])
    && (forall k | 0 <= k < |requests| :: Owned(after, requests[k].id) == requests[k].size)
    && (forall x | 0 <= x < |before| && after[x] != before[x] :: Listed(requests, after[x]))
  }

  lemma {:induction false} HeldAbsent(owners: seq<nat>, blocks: seq<nat>, id: nat)
    requires InSpace(blocks, |owners|) && forall x | 0 <= x < |owners| :: owners[x] != id
    ensures Held(owners, blocks, id) == 0
  {
    if blocks != [] { HeldAbsent(owners, blocks[1..], id); }
  }

  lemma ReceiverListed(requests: seq<Request>, sorted: seq<Request>, id: nat)
    requires multiset(sorted) == multiset(requests) && id in Receivers(sorted)
    ensures Listed(requests, id)
  {
    FlattenMember(sorted, Copies, id);
    var i :| 0 <= i < |sorted| && id in Copies(sorted[i]);
    assert sorted[i] in multiset(requests);
    var j :| 0 <= j < |requests| && requests[j] == sorted[i];
    assert requests[j].id == id;
  }

  /** The number of moved blocks is the sum of the quotas. */
  lemma MovementIsQuota(before: seq<nat>, after: seq<nat>, quotas: map<nat, nat>, requests: seq<Request>)
    requires Redistributed(before, after, quotas, requests) && Fresh(quotas, requests)
    requires forall x | 0 <= x < |before| :: before[x] in quotas
    requires forall p | p in quotas :: quotas[p] <= Owned(before, p)
    ensures Moved(before, after, |before|) == SumMap(quotas)
  {
    var sizes := map p | p in quotas :: Owned(before, p);
    var kept := map p | p in quotas :: Owned(after, p);
    CountPartition(before, |before|, sizes);
    CountPartition(after, |after|, kept);
    NoneOutside(before, |before|, quotas.Keys);
    SumMapSplit(quotas, kept, sizes);
    assert sizes.Keys == quotas.Keys == kept.Keys;
    MovedOutside(before, after, |before|, quotas.Keys);
  }

  lemma {:induction false} NoneOutside(owners: seq<nat>, hi: nat, ids: set<nat>)
    requires hi <= |owners| && forall x | 0 <= x < hi :: owners[x] in ids
    ensures Outside(owners, hi, ids) == 0
  {
    if hi > 0 { NoneOutside(owners, hi - 1, ids); }
  }

  lemma {:induction false} SumMapSplit(a: map<nat, nat>, b: map<nat, nat>, c: map<nat, nat>)
    requires a.Keys == b.Keys == c.Keys && forall k | k in a :: a[k] + b[k] == c[k]
    ensures SumMap(a) + SumMap(b) == SumMap(c)
    decreases |a.Keys|
  {
    if a == map[] {
      assert b == map[] && c == map[];
    } else {
      var k :| k in a;
      assert (a - {k}).Keys == a.Keys - {k} == (b - {k}).Keys == (c - {k}).Keys;
      SumMapSplit(a - {k}, b - {k}, c - {k});
      SumMapRemove(a, k);
      SumMapRemove(b, k);
      SumMapRemove(c, k);
    }
  }

  /** No assignment of the blocks that gives every disk the same amount moves fewer blocks. */
  lemma {:induction false} MovementIsMinimal(before: seq<nat>, after: seq<nat>, other: seq<nat>,
                                             quotas: map<nat, nat>, requests: seq<Request>)
    requires Redistributed(before, after, quotas, requests) && Fresh(quotas, requests)
    requires forall x | 0 <= x < |before| :: before[x] in quotas
    requires |other| == |before| && forall p | p in quotas :: Owned(other, p) == Owned(after, p)
    ensures Moved(before, after, |before|) <= Moved(before, other, |before|)
  {
    var kept := map p | p in quotas :: Owned(after, p);
    CountPartition(after, |after|, kept);
    CountPartition(other, |other|, kept);
    assert kept.Keys == quotas.Keys;
    MovedOutside(before, after, |before|, quotas.Keys);
    MovedOutside(before, other, |before|, quotas.Keys);
  }
}
