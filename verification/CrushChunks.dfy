/**
 How a layer cuts its items: in chunks of the layer's size, in order, the last one smaller if they do not
 come out even. For the lowest layer that spreads the disks over the failure domains.
 */
module CrushChunks {
  import opened Arithmetic
  import opened Disks
  import opened CrushMap
  import opened CrushBuild

  /** How many items a bucket of the layer takes when n are there. */
  function SizeFor(layer: Layer, n: nat): nat { if layer.size == 0 then n else layer.size }

  /** The first item of chunk i. */
  function ChunkStart(size: nat, i: nat): nat {
    NatProduct(i, size);
    i * size
  }

  ghost predicate IsChunk(b: Bucket, layer: Layer, kind: nat, items: seq<int>, i: nat) {
    var lo, size := ChunkStart(SizeFor(layer, |items|), i), SizeFor(layer, |items|);
    && lo <= |items| && b.items == items[lo..Min(lo + size, |items|)]
    && b.kind == kind && b.alg == layer.alg
  }

  /** The buckets hold the items in chunks, and there are no more of them than the items need. */
  ghost predicate InChunks(bs: seq<Bucket>, layer: Layer, kind: nat, items: seq<int>) {
    var size := SizeFor(layer, |items|);
    && (forall i | 0 <= i < |bs| :: IsChunk(bs[i], layer, kind, items, i))
    && bs != [] && ChunkStart(size, |bs| - 1) < |items| <= ChunkStart(size, |bs|)
  }

  /** Every bucket but the last is full, and the last holds what is left. */
  lemma FullButLast(bs: seq<Bucket>, layer: Layer, kind: nat, items: seq<int>, i: nat)
    requires InChunks(bs, layer, kind, items) && i < |bs|
    ensures var size := SizeFor(layer, |items|);
            && |bs[i].items| == (if i < |bs| - 1 then size else |items| - ChunkStart(size, i))
            && 0 < |bs[i].items| <= size
  {
    var size := SizeFor(layer, |items|);
    assert IsChunk(bs[i], layer, kind, items, i);
    ChunkNext(size, i);
    if i < |bs| - 1 {
      MulMonotone(i + 1, |bs| - 1, size);
    }
  }

  lemma ChunkNext(size: nat, i: nat)
    ensures ChunkStart(size, i + 1) == ChunkStart(size, i) + size && ChunkStart(size, 0) == 0
  {
    assert (i + 1) * size == i * size + size;
  }

  /** A layer cuts its items in chunks. */
  lemma {:induction false} PackedInChunks(layer: Layer, kind: nat, items: seq<int>, weights: seq<int>, pos: nat)
    requires |items| == |weights| && items != []
    ensures InChunks(Packed(layer, kind, items, weights, pos), layer, kind, items)
    decreases |items|
  {
    var bs, n, t := Packed(layer, kind, items, weights, pos), |items|, Taken(layer.size, |items|);
    var rest := Packed(layer, kind, items[t..], weights[t..], pos + 1);
    var size := SizeFor(layer, n);
    ChunkNext(size, 0);
    assert bs == [PackOne(layer, kind, items[..t], weights[..t], pos)] + rest;
    assert items[0..t] == items[..t];
    if t < n {
      PackedInChunks(layer, kind, items[t..], weights[t..], pos + 1);
      forall i | 0 <= i < |bs| ensures IsChunk(bs[i], layer, kind, items, i) {
        if i > 0 { ChunkBehind(rest[i-1], layer, kind, items, i - 1); }
      }
      ChunkNext(size, |rest| - 1);
      ChunkNext(size, |rest|);
    } else {
      assert items[t..] == [];
    }
  }

  lemma ChunkBehind(b: Bucket, layer: Layer, kind: nat, items: seq<int>, i: nat)
    requires 0 < layer.size < |items| && IsChunk(b, layer, kind, items[layer.size..], i)
    ensures IsChunk(b, layer, kind, items, i + 1)
  {
    var t, lo := layer.size, ChunkStart(layer.size, i);
    ChunkNext(t, i);
    SliceOfRest(items, t, lo, Min(lo + t, |items| - t));
  }

  lemma SliceOfRest(s: seq<int>, t: nat, lo: nat, hi: nat)
    requires t <= |s| && lo <= hi <= |s| - t
    ensures s[t..][lo..hi] == s[t+lo..t+hi]
  {
  }

  // ---- the hierarchy ----

  lemma LayerInChunks(h: Hierarchy, layer: Layer, kind: nat)
    requires |h.items| == |h.weights| && h.items != []
    ensures var upper := LayerOn(h, layer, kind);
            && |h.bs| <= |upper.bs| && upper.items == Ids(|h.bs|, |upper.bs|)
            && InChunks(upper.bs[|h.bs|..|upper.bs|], layer, kind, h.items)
  {
    var upper := LayerOn(h, layer, kind);
    PackedInChunks(layer, kind, h.items, h.weights, |h.bs|);
    assert upper.bs[|h.bs|..|upper.bs|] == Packed(layer, kind, h.items, h.weights, |h.bs|);
  }

  /** The buckets of every layer, as the finished hierarchy holds them, are chunks of the items below. */
  lemma {:induction false} BuiltInChunks(disks: seq<Disk>, layers: seq<Layer>, n: nat, j: nat)
    requires j < n <= |layers| && disks != []
    ensures var lower, upper, bs := Built(disks, layers, j), Built(disks, layers, j + 1), Built(disks, layers, n).bs;
            && |lower.bs| <= |upper.bs| <= |bs|
            && upper.items == Ids(|lower.bs|, |upper.bs|)
            && InChunks(bs[|lower.bs|..|upper.bs|], layers[j], j + 1, lower.items)
    decreases n
  {
    var lower, upper := Built(disks, layers, j), Built(disks, layers, j + 1);
    if n == j + 1 {
      BuiltNonEmpty(disks, layers, j);
      LayerInChunks(lower, layers[j], j + 1);
    } else {
      BuiltInChunks(disks, layers, n - 1, j);
      var before, bs := Built(disks, layers, n - 1).bs, Built(disks, layers, n).bs;
      assert bs[|lower.bs|..|upper.bs|] == before[|lower.bs|..|upper.bs|];
    }
  }

  /** Buckets above the lowest layer have a greater kind. */
  lemma {:induction false} HigherKinds(disks: seq<Disk>, layers: seq<Layer>, n: nat, p: nat)
    requires 0 < n <= |layers| && disks != [] && |Built(disks, layers, 1).bs| <= p < |Built(disks, layers, n).bs|
    ensures Built(disks, layers, n).bs[p].kind > 1
  {
    if n > 1 {
      var before, h := Built(disks, layers, n - 1), Built(disks, layers, n);
      if p < |before.bs| {
        HigherKinds(disks, layers, n - 1, p);
        assert h.bs[p] == before.bs[p];
      } else {
        BuiltInChunks(disks, layers, n, n - 1);
        var i := p - |before.bs|;
        assert IsChunk(h.bs[|before.bs|..|h.bs|][i], layers[n-1], n, before.items, i);
      }
    }
  }

  // ---- the failure domains ----

  /** per is the least number of disks for each of `domains` buckets that is enough for n disks. */
  predicate IsLeastPer(per: nat, n: nat, domains: nat) {
    per > 0 && domains * (per - 1) < n <= domains * per
  }

  /**
   The first `count` buckets are the domains: all but the last hold exactly `per` disks, the last the remaining
   ones, in list order, and there are not more of them than asked for.
   */
  ghost predicate SpreadOver(bs: seq<Bucket>, ids: seq<int>, domains: nat, per: nat, count: nat) {
    && IsLeastPer(per, |ids|, domains) && 0 < count <= domains && count <= |bs|
    && ChunkStart(per, count - 1) < |ids| <= ChunkStart(per, count)
    && (forall i | 0 <= i < count :: IsDomain(bs[i], ids, per, i))
    && (forall i | count <= i < |bs| :: bs[i].kind > 1)
  }

  ghost predicate Spread(bs: seq<Bucket>, ids: seq<int>, domains: nat) {
    exists per: nat, count: nat :: SpreadOver(bs, ids, domains, per, count)
  }

  ghost predicate IsDomain(b: Bucket, ids: seq<int>, per: nat, i: nat) {
    var lo := ChunkStart(per, i);
    && lo < |ids| && b.kind == 1
    && b.items == ids[lo..Min(lo + per, |ids|)]
  }

  lemma DomainIsFull(bs: seq<Bucket>, ids: seq<int>, domains: nat, per: nat, count: nat, i: nat)
    requires SpreadOver(bs, ids, domains, per, count) && i < count
    ensures |bs[i].items| == (if i < count - 1 then per else |ids| - ChunkStart(per, i)) && 0 < |bs[i].items| <= per
  {
    assert IsDomain(bs[i], ids, per, i);
    ChunkNext(per, i);
    if i < count - 1 { MulMonotone(i + 1, count - 1, per); }
  }

  /** A lowest layer of the least sufficient size spreads the disks over the domains, whatever lies above it. */
  lemma {:induction false} LowestLayerSpreads(disks: seq<Disk>, layers: seq<Layer>, n: nat, domains: nat)
    requires 0 < n <= |layers| && disks != [] && IsLeastPer(layers[0].size, |disks|, domains)
    ensures SpreadOver(Built(disks, layers, n).bs, IdsOf(disks), domains, layers[0].size, |Built(disks, layers, 1).bs|)
  {
    var bs, ids, per, count := Built(disks, layers, n).bs, IdsOf(disks), layers[0].size, |Built(disks, layers, 1).bs|;
    BuiltInChunks(disks, layers, n, 0);
    assert Built(disks, layers, 0) == Hierarchy([], ids, Weights32(disks));
    assert bs[0..count] == bs[..count];
    if count > domains { MulMonotone(domains, count - 1, per); }
    forall i | 0 <= i < count ensures IsDomain(bs[i], ids, per, i) {
      assert IsChunk(bs[..count][i], layers[0], 1, ids, i);
      FullButLast(bs[..count], layers[0], 1, ids, i);
    }
    forall i | count <= i < |bs| ensures bs[i].kind > 1 {
      HigherKinds(disks, layers, n, i);
    }
  }
}
