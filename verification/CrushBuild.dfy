/**
 Building the CRUSH hierarchy: the disks are the lowest layer, and each layer packs the items of the
 one below into buckets.
 */
module CrushBuild {
  import opened Arithmetic
  import opened Disks
  import opened CrushMap

  /** A bucket type and how many items a bucket takes; 0 means all. */
  datatype Layer = Layer(alg: nat, size: nat)

  function Sum(s: seq<int>): int {
    if s == [] then 0 else s[0] + Sum(s[1..])
  }

  /** The ids of the buckets in the slots from, ..., to - 1. */
  function Ids(from: nat, to: nat): (s: seq<int>)
    requires from <= to
    ensures |s| == to - from && forall i | 0 <= i < |s| :: s[i] == -1 - (from + i)
  {
    seq(to - from, i => -1 - (from + i))
  }

  const UNIFORM: nat := 1
  const STRAW: nat := 4

  /** The weight a bucket records, in 32 bits: a uniform one takes all its items for as heavy as the first. */
  function RecordedWeight(alg: nat, weights: seq<int>): nat {
    Low32(if alg == UNIFORM then (if weights == [] then 0 else |weights| * weights[0]) else Sum(weights))
  }

  /** How many of n items the next bucket takes. */
  function Taken(size: nat, n: nat): (t: nat)
    requires n > 0
    ensures 0 < t <= n
  {
    if size == 0 || size >= n then n else size
  }

  function PackOne(layer: Layer, kind: nat, items: seq<int>, weights: seq<int>, pos: nat): Bucket
    requires |items| == |weights|
  {
    Bucket(-1 - pos, kind, layer.alg, RecordedWeight(layer.alg, weights), items)
  }

  /** The buckets of one layer over the given items, from slot pos on. */
  function Packed(layer: Layer, kind: nat, items: seq<int>, weights: seq<int>, pos: nat): (bs: seq<Bucket>)
    requires |items| == |weights|
    ensures items != [] ==> bs != []
    ensures forall i | 0 <= i < |bs| :: bs[i].id == -1 - (pos + i) && bs[i].alg == layer.alg
    decreases |items|
  {
    if items == [] then []
    else
      var t := Taken(layer.size, |items|);
      [PackOne(layer, kind, items[..t], weights[..t], pos)] + Packed(layer, kind, items[t..], weights[t..], pos + 1)
  }

  /** The weights that the layer hands on: one sum per bucket, in 32 bits. */
  function PackedWeights(layer: Layer, items: seq<int>, weights: seq<int>): (ws: seq<int>)
    requires |items| == |weights|
    decreases |items|
  {
    if items == [] then []
    else
      var t := Taken(layer.size, |items|);
      [Int32(Sum(weights[..t]))] + PackedWeights(layer, items[t..], weights[t..])
  }

  // ---- what the layers keep ----

  /** The items of all buckets, one bucket after the other. */
  function Flat(bs: seq<Bucket>): seq<int> {
    if bs == [] then [] else bs[0].items + Flat(bs[1..])
  }

  lemma {:induction false} FlatAppend(a: seq<Bucket>, b: seq<Bucket>)
    ensures Flat(a + b) == Flat(a) + Flat(b)
  {
    if a == [] {
      assert a + b == b;
    } else {
      assert (a + b)[1..] == a[1..] + b;
      FlatAppend(a[1..], b);
    }
  }

  lemma {:induction false} SumAppend(a: seq<int>, b: seq<int>)
    ensures Sum(a + b) == Sum(a) + Sum(b)
  {
    if a == [] {
      assert a + b == b;
    } else {
      assert (a + b)[1..] == a[1..] + b;
      SumAppend(a[1..], b);
    }
  }

  /** A layer puts every item into exactly one bucket, in order, and conserves the total weight as far as 32 bits go. */
  lemma {:induction false} PackedConserves(layer: Layer, kind: nat, items: seq<int>, weights: seq<int>, pos: nat)
    requires |items| == |weights|
    ensures Flat(Packed(layer, kind, items, weights, pos)) == items
    ensures Int32(Sum(PackedWeights(layer, items, weights))) == Int32(Sum(weights))
    ensures |PackedWeights(layer, items, weights)| == |Packed(layer, kind, items, weights, pos)|
    decreases |items|
  {
    if items != [] {
      var t := Taken(layer.size, |items|);
      PackedConserves(layer, kind, items[t..], weights[t..], pos + 1);
      var bs := Packed(layer, kind, items, weights, pos);
      assert bs[1..] == Packed(layer, kind, items[t..], weights[t..], pos + 1);
      assert items == items[..t] + items[t..];
      assert weights == weights[..t] + weights[t..];
      SumAppend(weights[..t], weights[t..]);
      var ws := PackedWeights(layer, items, weights);
      assert ws[1..] == PackedWeights(layer, items[t..], weights[t..]);
      Int32Sum(Sum(weights[..t]), Sum(ws[1..]));
      Int32Sum(Sum(ws[1..]), Sum(weights[..t]));
      Int32Sum(Sum(weights[t..]), Sum(weights[..t]));
    }
  }

  /** One bucket is enough exactly when it may take all items. */
  lemma {:induction false} PackedSingle(layer: Layer, kind: nat, items: seq<int>, weights: seq<int>, pos: nat)
    requires |items| == |weights| && items != []
    ensures |Packed(layer, kind, items, weights, pos)| == 1 <==> layer.size == 0 || layer.size >= |items|
  {
    var t := Taken(layer.size, |items|);
    if t < |items| { assert items[t..] != []; }
  }

  // ---- the hierarchy ----

  /** Buckets hold devices and earlier buckets only. */
  ghost predicate Layered(bs: seq<Bucket>) {
    forall p | 0 <= p < |bs| :: ItemsAbove(bs[p].items, p)
  }

  ghost predicate ItemsAbove(items: seq<int>, p: nat) {
    forall i | 0 <= i < |items| :: 0 <= items[i] + p
  }

  function Rank(id: int): nat { if id < 0 then -id else 0 }

  /** The devices below an item, one entry for every path that leads to them. */
  ghost function Devices(bs: seq<Bucket>, id: int): seq<int>
    requires Layered(bs) && id >= -|bs|
    decreases Rank(id), 0
  {
    if id >= 0 then [id] else DevicesOfAll(bs, bs[-1-id].items, -1 - id)
  }

  ghost function DevicesOfAll(bs: seq<Bucket>, items: seq<int>, p: nat): seq<int>
    requires Layered(bs) && p <= |bs| && ItemsAbove(items, p)
    decreases p, |items| + 1
  {
    if items == [] then []
    else Devices(bs, items[0]) + DevicesOfAll(bs, items[1..], p)
  }

  /** The weight of the devices below an item. */
  ghost function WeightBelow(bs: seq<Bucket>, capacity: int -> nat, id: int): nat
    requires Layered(bs) && id >= -|bs|
    decreases Rank(id), 0
  {
    if id >= 0 then capacity(id) else WeightBelowAll(bs, capacity, bs[-1-id].items, -1 - id)
  }

  ghost function WeightBelowAll(bs: seq<Bucket>, capacity: int -> nat, items: seq<int>, p: nat): nat
    requires Layered(bs) && p <= |bs| && ItemsAbove(items, p)
    decreases p, |items| + 1
  {
    if items == [] then 0
    else WeightBelow(bs, capacity, items[0]) + WeightBelowAll(bs, capacity, items[1..], p)
  }

  lemma AppendLayered(bs: seq<Bucket>, more: seq<Bucket>)
    requires Layered(bs) && AllAbove(more, |bs|)
    ensures Layered(bs + more)
  {
    forall p | 0 <= p < |bs + more| ensures ItemsAbove((bs + more)[p].items, p) {
      if p < |bs| { assert ItemsAbove(bs[p].items, p); } else { assert ItemsAbove(more[p-|bs|].items, |bs|); }
    }
  }

  /** Later buckets do not change what is below earlier ones. */
  lemma {:induction false} DevicesStable(bs: seq<Bucket>, more: seq<Bucket>, capacity: int -> nat, id: int)
    requires Layered(bs) && Layered(bs + more) && id >= -|bs|
    ensures Devices(bs + more, id) == Devices(bs, id)
    ensures WeightBelow(bs + more, capacity, id) == WeightBelow(bs, capacity, id)
    decreases Rank(id), 0
  {
    if id < 0 {
      assert (bs + more)[-1-id] == bs[-1-id] && ItemsAbove(bs[-1-id].items, -1 - id);
      DevicesOfAllStable(bs, more, capacity, bs[-1-id].items, -1 - id);
    }
  }

  lemma {:induction false} DevicesOfAllStable(bs: seq<Bucket>, more: seq<Bucket>, capacity: int -> nat,
                                              items: seq<int>, p: nat)
    requires Layered(bs) && Layered(bs + more) && p <= |bs| && ItemsAbove(items, p)
    ensures DevicesOfAll(bs + more, items, p) == DevicesOfAll(bs, items, p)
    ensures WeightBelowAll(bs + more, capacity, items, p) == WeightBelowAll(bs, capacity, items, p)
    decreases p, |items| + 1
  {
    if items != [] {
      DevicesStable(bs, more, capacity, items[0]);
      DevicesOfAllStable(bs, more, capacity, items[1..], p);
    }
  }

  lemma {:induction false} DevicesOfAllAppend(bs: seq<Bucket>, capacity: int -> nat, a: seq<int>, b: seq<int>, p: nat)
    requires Layered(bs) && p <= |bs| && ItemsAbove(a, p) && ItemsAbove(b, p)
    ensures ItemsAbove(a + b, p)
    ensures DevicesOfAll(bs, a + b, p) == DevicesOfAll(bs, a, p) + DevicesOfAll(bs, b, p)
    ensures WeightBelowAll(bs, capacity, a + b, p)
            == WeightBelowAll(bs, capacity, a, p) + WeightBelowAll(bs, capacity, b, p)
  {
    if a == [] {
      assert a + b == b;
    } else {
      assert (a + b)[1..] == a[1..] + b && (a + b)[0] == a[0];
      DevicesOfAllAppend(bs, capacity, a[1..], b, p);
      AppendAssociates(Devices(bs, a[0]), DevicesOfAll(bs, a[1..], p), DevicesOfAll(bs, b, p));
    }
  }

  lemma AppendAssociates(a: seq<int>, b: seq<int>, c: seq<int>)
    ensures a + (b + c) == (a + b) + c
  {
  }

  /** The bound on the buckets that items may name does not matter for what is below them. */
  lemma {:induction false} BoundIrrelevant(bs: seq<Bucket>, capacity: int -> nat, items: seq<int>, p: nat, q: nat)
    requires Layered(bs) && p <= q <= |bs| && ItemsAbove(items, p)
    ensures ItemsAbove(items, q)
    ensures DevicesOfAll(bs, items, p) == DevicesOfAll(bs, items, q)
    ensures WeightBelowAll(bs, capacity, items, p) == WeightBelowAll(bs, capacity, items, q)
  {
    if items != [] { BoundIrrelevant(bs, capacity, items[1..], p, q); }
  }

  /** The buckets from `pos` on are those of a packed layer. */
  ghost predicate EndsWith(all: seq<Bucket>, layer: Layer, kind: nat, items: seq<int>, weights: seq<int>, pos: nat)
    requires |items| == |weights|
  {
    pos <= |all| && all[pos..] == Packed(layer, kind, items, weights, pos)
  }

  lemma EndsWithStep(all: seq<Bucket>, layer: Layer, kind: nat, items: seq<int>, weights: seq<int>, pos: nat)
    requires |items| == |weights| && EndsWith(all, layer, kind, items, weights, pos) && items != []
    ensures var t := Taken(layer.size, |items|);
            && pos < |all| && all[pos] == PackOne(layer, kind, items[..t], weights[..t], pos)
            && EndsWith(all, layer, kind, items[t..], weights[t..], pos + 1)
            && items == items[..t] + items[t..]
    ensures Ids(pos, |all|)[0] == -1 - pos && Ids(pos, |all|)[1..] == Ids(pos + 1, |all|)
  {
    var packed := Packed(layer, kind, items, weights, pos);
    assert packed[1..] == all[pos+1..];
    assert all[pos] == packed[0];
  }

  /** Packing a layer keeps the devices below the layer as a whole. */
  lemma {:induction false} PackedKeepsDevices(layer: Layer, kind: nat, items: seq<int>, weights: seq<int>,
                                              p: nat, all: seq<Bucket>, pos: nat, capacity: int -> nat)
    requires Layered(all) && p <= pos <= |all| && ItemsAbove(items, p) && |items| == |weights|
    requires EndsWith(all, layer, kind, items, weights, pos)
    ensures ItemsAbove(Ids(pos, |all|), |all|)
    ensures DevicesOfAll(all, Ids(pos, |all|), |all|) == DevicesOfAll(all, items, p)
    ensures WeightBelowAll(all, capacity, Ids(pos, |all|), |all|) == WeightBelowAll(all, capacity, items, p)
    decreases |items|
  {
    if items != [] {
      var t := Taken(layer.size, |items|);
      EndsWithStep(all, layer, kind, items, weights, pos);
      PackedKeepsDevices(layer, kind, items[t..], weights[t..], p, all, pos + 1, capacity);
      assert ItemsAbove(all[pos].items, pos);
      BoundIrrelevant(all, capacity, items[..t], p, pos);
      DevicesOfAllAppend(all, capacity, items[..t], items[t..], p);
    } else {
      assert Ids(pos, |all|) == [];
    }
  }

  /** The weights of the items are the weights below them, in 32 bits. */
  ghost predicate Weighed(all: seq<Bucket>, capacity: int -> nat, items: seq<int>, weights: seq<int>)
    requires Layered(all)
  {
    |items| == |weights| && forall i | 0 <= i < |items| :: WeighedAt(all, capacity, items[i], weights[i])
  }

  ghost predicate WeighedAt(all: seq<Bucket>, capacity: int -> nat, item: int, weight: int)
    requires Layered(all)
  {
    item >= -|all| && weight == Int32(WeightBelow(all, capacity, item))
  }

  /** Every handed-on weight is the weight below its bucket. */
  lemma {:induction false} PackedWeighed(layer: Layer, kind: nat, items: seq<int>, weights: seq<int>,
                                         p: nat, all: seq<Bucket>, pos: nat, capacity: int -> nat)
    requires Layered(all) && p <= pos <= |all| && ItemsAbove(items, p) && Weighed(all, capacity, items, weights)
    requires EndsWith(all, layer, kind, items, weights, pos)
    ensures Weighed(all, capacity, Ids(pos, |all|), PackedWeights(layer, items, weights))
    decreases |items|
  {
    if items != [] {
      var t := Taken(layer.size, |items|);
      EndsWithStep(all, layer, kind, items, weights, pos);
      PackedWeighed(layer, kind, items[t..], weights[t..], p, all, pos + 1, capacity);
      assert ItemsAbove(all[pos].items, pos);
      BoundIrrelevant(all, capacity, items[..t], p, pos);
      WeightsAdd(all, capacity, items[..t], weights[..t], p);
      WeighedCons(all, capacity, Ids(pos, |all|), PackedWeights(layer, items, weights));
    } else {
      assert Ids(pos, |all|) == [];
    }
  }

  lemma WeighedCons(all: seq<Bucket>, capacity: int -> nat, items: seq<int>, weights: seq<int>)
    requires Layered(all) && items != [] && weights != [] && WeighedAt(all, capacity, items[0], weights[0])
    requires Weighed(all, capacity, items[1..], weights[1..])
    ensures Weighed(all, capacity, items, weights)
  {
    forall i | 0 <= i < |items| ensures WeighedAt(all, capacity, items[i], weights[i]) {
      if i > 0 { assert WeighedAt(all, capacity, items[1..][i-1], weights[1..][i-1]); }
    }
  }

  lemma {:induction false} WeightsAdd(bs: seq<Bucket>, capacity: int -> nat, items: seq<int>, weights: seq<int>, p: nat)
    requires Layered(bs) && p <= |bs| && ItemsAbove(items, p) && Weighed(bs, capacity, items, weights)
    ensures Int32(WeightBelowAll(bs, capacity, items, p)) == Int32(Sum(weights))
  {
    if items != [] {
      assert WeighedAt(bs, capacity, items[0], weights[0]);
      WeightsAdd(bs, capacity, items[1..], weights[1..], p);
      var first, rest := WeightBelow(bs, capacity, items[0]), WeightBelowAll(bs, capacity, items[1..], p);
      Int32Sum(first, Sum(weights[1..]));
      Int32Sum(Sum(weights[1..]), first);
      Int32Sum(rest, first);
    }
  }

  /**
   A bucket records the low 32 bits of the weight below it, or of its number of items times the weight below
   the first.
   */
  ghost predicate RecordedAt(bs: seq<Bucket>, capacity: int -> nat, p: nat)
    requires Layered(bs) && p < |bs|
  {
    && ItemsAbove(bs[p].items, p) && bs[p].items != []
    && bs[p].weight ==
       Low32(if bs[p].alg == UNIFORM then UniformWeight(bs, capacity, p) else WeightBelow(bs, capacity, -1 - p))
  }

  ghost function UniformWeight(bs: seq<Bucket>, capacity: int -> nat, p: nat): nat
    requires Layered(bs) && p < |bs| && ItemsAbove(bs[p].items, p) && bs[p].items != []
  {
    assert 0 <= bs[p].items[0] + p;
    NatProduct(|bs[p].items|, WeightBelow(bs, capacity, bs[p].items[0]));
    |bs[p].items| * WeightBelow(bs, capacity, bs[p].items[0])
  }

  ghost predicate Recorded(bs: seq<Bucket>, capacity: int -> nat)
    requires Layered(bs)
  {
    forall p | 0 <= p < |bs| :: RecordedAt(bs, capacity, p)
  }

  lemma RecordedStable(bs: seq<Bucket>, more: seq<Bucket>, capacity: int -> nat, p: nat)
    requires Layered(bs) && Layered(bs + more) && p < |bs| && RecordedAt(bs, capacity, p)
    ensures RecordedAt(bs + more, capacity, p)
  {
    assert (bs + more)[p] == bs[p] && 0 <= bs[p].items[0] + p;
    DevicesStable(bs, more, capacity, bs[p].items[0]);
    DevicesStable(bs, more, capacity, -1 - p);
  }

  lemma {:induction false} PackedRecords(layer: Layer, kind: nat, items: seq<int>, weights: seq<int>,
                                         p: nat, all: seq<Bucket>, pos: nat, capacity: int -> nat)
    requires Layered(all) && p <= pos <= |all| && ItemsAbove(items, p) && Weighed(all, capacity, items, weights)
    requires EndsWith(all, layer, kind, items, weights, pos)
    ensures forall q | pos <= q < |all| :: RecordedAt(all, capacity, q)
    decreases |items|
  {
    if items != [] {
      var t := Taken(layer.size, |items|);
      EndsWithStep(all, layer, kind, items, weights, pos);
      PackedRecords(layer, kind, items[t..], weights[t..], p, all, pos + 1, capacity);
      assert ItemsAbove(all[pos].items, pos);
      assert WeighedAt(all, capacity, items[0], weights[0]);
      BoundIrrelevant(all, capacity, items[..t], p, pos);
      WeightsAdd(all, capacity, items[..t], weights[..t], p);
      RecordedIsWeight(layer.alg, weights[..t], WeightBelow(all, capacity, items[0]),
          WeightBelow(all, capacity, -1 - pos));
    }
  }

  lemma RecordedIsWeight(alg: nat, weights: seq<int>, first: nat, total: nat)
    requires weights != [] && weights[0] == Int32(first) && Int32(total) == Int32(Sum(weights))
    ensures RecordedWeight(alg, weights) == Low32(if alg == UNIFORM then |weights| * first else total)
  {
    Low32Product(|weights|, first);
    Int32Sum(total, 0);
    Int32Sum(Sum(weights), 0);
  }

  /** No bucket is empty, and all hold devices and buckets before slot p only. */
  ghost predicate AllAbove(bs: seq<Bucket>, p: nat) {
    forall i | 0 <= i < |bs| :: ItemsAbove(bs[i].items, p) && bs[i].items != []
  }

  lemma {:induction false} PackedItemsAbove(layer: Layer, kind: nat, items: seq<int>, weights: seq<int>, pos: nat,
                                            p: nat)
    requires |items| == |weights| && ItemsAbove(items, p)
    ensures AllAbove(Packed(layer, kind, items, weights, pos), p)
    decreases |items|
  {
    if items != [] {
      var t := Taken(layer.size, |items|);
      PackedItemsAbove(layer, kind, items[t..], weights[t..], pos + 1, p);
      AllAboveCons(PackOne(layer, kind, items[..t], weights[..t], pos),
                   Packed(layer, kind, items[t..], weights[t..], pos + 1), p);
    }
  }

  lemma AllAboveCons(b: Bucket, bs: seq<Bucket>, p: nat)
    requires AllAbove(bs, p) && ItemsAbove(b.items, p) && b.items != []
    ensures AllAbove([b] + bs, p)
  {
  }

  // ---- all layers ----

  /** The buckets built so far, and the items and weights of the current layer. */
  datatype Hierarchy = Hierarchy(bs: seq<Bucket>, items: seq<int>, weights: seq<int>)

  function IdsOf(disks: seq<Disk>): (r: seq<int>)
    ensures |r| == |disks| && forall i | 0 <= i < |r| :: r[i] == disks[i].id
  {
    seq(|disks|, i requires 0 <= i < |disks| => disks[i].id)
  }

  /** The capacities as the lowest layer takes them: cut to 32 bits. */
  function Weights32(disks: seq<Disk>): (r: seq<int>)
    ensures |r| == |disks| && forall i | 0 <= i < |r| :: r[i] == Int32(disks[i].capacity)
  {
    seq(|disks|, i requires 0 <= i < |disks| => Int32(disks[i].capacity))
  }

  lemma {:induction false} Weights32Sum(disks: seq<Disk>)
    ensures Int32(Sum(Weights32(disks))) == Int32(Sum(CapacitiesOf(disks)))
  {
    if disks != [] {
      Weights32Sum(disks[1..]);
      assert Weights32(disks)[1..] == Weights32(disks[1..]) && CapacitiesOf(disks)[1..] == CapacitiesOf(disks[1..]);
      Int32Sum(disks[0].capacity, Sum(Weights32(disks[1..])));
      Int32Sum(Sum(Weights32(disks[1..])), disks[0].capacity);
      Int32Sum(Sum(CapacitiesOf(disks[1..])), disks[0].capacity);
    }
  }

  function LayerOn(h: Hierarchy, layer: Layer, kind: nat): (r: Hierarchy)
    requires |h.items| == |h.weights|
    ensures |r.items| == |r.weights|
  {
    var packed := Packed(layer, kind, h.items, h.weights, |h.bs|);
    PackedConserves(layer, kind, h.items, h.weights, |h.bs|);
    Hierarchy(h.bs + packed, Ids(|h.bs|, |h.bs| + |packed|), PackedWeights(layer, h.items, h.weights))
  }

  /** The hierarchy after the first n layers, which are numbered from 1. */
  function Built(disks: seq<Disk>, layers: seq<Layer>, n: nat): (h: Hierarchy)
    requires n <= |layers|
    ensures |h.items| == |h.weights|
  {
    if n == 0 then Hierarchy([], IdsOf(disks), Weights32(disks))
        else LayerOn(Built(disks, layers, n - 1), layers[n-1], n)
  }

  /** What every layer keeps: `all` devices are below the current items, each on one path, with their weights. */
  ghost predicate Sound(h: Hierarchy, all: seq<int>, total: int, capacity: int -> nat) {
    && Layered(h.bs) && ItemsAbove(h.items, |h.bs|)
    && DevicesOfAll(h.bs, h.items, |h.bs|) == all
    && WeightBelowAll(h.bs, capacity, h.items, |h.bs|) == total
    && Weighed(h.bs, capacity, h.items, h.weights) && Recorded(h.bs, capacity)
  }

  lemma LayerKeepsSound(h: Hierarchy, layer: Layer, kind: nat, all: seq<int>, total: int, capacity: int -> nat)
    requires Sound(h, all, total, capacity)
    ensures Sound(LayerOn(h, layer, kind), all, total, capacity)
  {
    var packed := Packed(layer, kind, h.items, h.weights, |h.bs|);
    var next := LayerOn(h, layer, kind);
    PackedConserves(layer, kind, h.items, h.weights, |h.bs|);
    PackedItemsAbove(layer, kind, h.items, h.weights, |h.bs|, |h.bs|);
    AppendLayered(h.bs, packed);
    assert next.bs[|h.bs|..] == packed;
    WeighedStable(h.bs, packed, capacity, h.items, h.weights);
    DevicesOfAllStable(h.bs, packed, capacity, h.items, |h.bs|);
    PackedKeepsDevices(layer, kind, h.items, h.weights, |h.bs|, next.bs, |h.bs|, capacity);
    PackedWeighed(layer, kind, h.items, h.weights, |h.bs|, next.bs, |h.bs|, capacity);
    PackedRecords(layer, kind, h.items, h.weights, |h.bs|, next.bs, |h.bs|, capacity);
    forall p | 0 <= p < |next.bs| ensures RecordedAt(next.bs, capacity, p) {
      if p < |h.bs| { RecordedStable(h.bs, packed, capacity, p); }
    }
  }

  lemma WeighedStable(bs: seq<Bucket>, more: seq<Bucket>, capacity: int -> nat, items: seq<int>, weights: seq<int>)
    requires Layered(bs) && Layered(bs + more) && Weighed(bs, capacity, items, weights)
    ensures Weighed(bs + more, capacity, items, weights)
  {
    forall i | 0 <= i < |items| ensures WeighedAt(bs + more, capacity, items[i], weights[i]) {
      assert WeighedAt(bs, capacity, items[i], weights[i]);
      DevicesStable(bs, more, capacity, items[i]);
    }
  }

  lemma DisksSound(disks: seq<Disk>, capacity: int -> nat)
    requires forall i | 0 <= i < |disks| :: capacity(disks[i].id) == disks[i].capacity
    ensures Sound(Hierarchy([], IdsOf(disks), Weights32(disks)), IdsOf(disks), Sum(CapacitiesOf(disks)), capacity)
  {
    var h := Hierarchy([], IdsOf(disks), Weights32(disks));
    DevicesOfDevices([], h.items, 0);
    DisksWeigh(disks, capacity);
    forall i | 0 <= i < |h.items| ensures WeighedAt([], capacity, h.items[i], h.weights[i]) { }
  }

  lemma {:induction false} DisksWeigh(disks: seq<Disk>, capacity: int -> nat)
    requires forall i | 0 <= i < |disks| :: capacity(disks[i].id) == disks[i].capacity
    ensures ItemsAbove(IdsOf(disks), 0)
    ensures WeightBelowAll([], capacity, IdsOf(disks), 0) == Sum(CapacitiesOf(disks))
  {
    if disks != [] {
      DisksWeigh(disks[1..], capacity);
      assert IdsOf(disks)[1..] == IdsOf(disks[1..]) && CapacitiesOf(disks)[1..] == CapacitiesOf(disks[1..]);
    }
  }

  lemma {:induction false} DevicesOfDevices(bs: seq<Bucket>, items: seq<int>, p: nat)
    requires Layered(bs) && p <= |bs| && forall i | 0 <= i < |items| :: items[i] >= 0
    ensures ItemsAbove(items, p) && DevicesOfAll(bs, items, p) == items
  {
    if items != [] { DevicesOfDevices(bs, items[1..], p); }
  }

  /** After any number of layers every disk is below the current items on exactly one path, and no weight is lost. */
  lemma {:induction false} BuiltIsSound(disks: seq<Disk>, layers: seq<Layer>, n: nat, capacity: int -> nat)
    requires n <= |layers| && forall i | 0 <= i < |disks| :: capacity(disks[i].id) == disks[i].capacity
    ensures Sound(Built(disks, layers, n), IdsOf(disks), Sum(CapacitiesOf(disks)), capacity)
  {
    if n == 0 {
      DisksSound(disks, capacity);
    } else {
      BuiltIsSound(disks, layers, n - 1, capacity);
      LayerKeepsSound(Built(disks, layers, n - 1), layers[n-1], n, IdsOf(disks), Sum(CapacitiesOf(disks)), capacity);
    }
  }

  lemma {:induction false} BuiltAbove(disks: seq<Disk>, layers: seq<Layer>, n: nat)
    requires n <= |layers|
    ensures ItemsAbove(Built(disks, layers, n).items, |Built(disks, layers, n).bs|)
  {
    if n > 0 {
      var h := Built(disks, layers, n - 1);
      var packed := Packed(layers[n-1], n, h.items, h.weights, |h.bs|);
      assert Built(disks, layers, n).items == Ids(|h.bs|, |h.bs| + |packed|);
    }
  }

  /**
   Every item but those of the current layer stands in exactly one bucket: the disks and all lower buckets,
   in order.
   */
  ghost predicate ListsOnce(h: Hierarchy, all: seq<int>) {
    Flat(h.bs) + h.items == all + Ids(0, |h.bs|) && AllNumbered(h.bs)
  }

  ghost predicate AllNumbered(bs: seq<Bucket>) {
    forall i | 0 <= i < |bs| :: bs[i].id == -1 - i && bs[i].items != []
  }

  lemma {:induction false} BuiltListsOnce(disks: seq<Disk>, layers: seq<Layer>, n: nat)
    requires n <= |layers|
    ensures ListsOnce(Built(disks, layers, n), IdsOf(disks))
  {
    if n > 0 {
      BuiltListsOnce(disks, layers, n - 1);
      BuiltAbove(disks, layers, n - 1);
      LayerListsOnce(Built(disks, layers, n - 1), layers[n-1], n, IdsOf(disks));
    }
  }

  lemma LayerListsOnce(h: Hierarchy, layer: Layer, kind: nat, all: seq<int>)
    requires ListsOnce(h, all) && ItemsAbove(h.items, |h.bs|) && |h.items| == |h.weights|
    ensures ListsOnce(LayerOn(h, layer, kind), all)
  {
    var packed := Packed(layer, kind, h.items, h.weights, |h.bs|);
    PackedConserves(layer, kind, h.items, h.weights, |h.bs|);
    PackedItemsAbove(layer, kind, h.items, h.weights, |h.bs|, |h.bs|);
    NumberedAppend(h.bs, packed);
    FlatAppend(h.bs, packed);
    var ids := Ids(|h.bs|, |h.bs| + |packed|);
    assert Ids(0, |h.bs|) + ids == Ids(0, |h.bs| + |packed|);
    Regroup(Flat(h.bs) + h.items, all, Ids(0, |h.bs|), ids);
  }

  lemma NumberedAppend(a: seq<Bucket>, b: seq<Bucket>)
    requires AllNumbered(a) && forall i | 0 <= i < |b| :: b[i].id == -1 - (|a| + i) && b[i].items != []
    ensures AllNumbered(a + b)
  {
  }

  lemma Regroup(a: seq<int>, b: seq<int>, c: seq<int>, d: seq<int>)
    requires a == b + c
    ensures a + d == b + (c + d)
  {
  }

  lemma {:induction false} SomethingBelow(bs: seq<Bucket>, id: int)
    requires Layered(bs) && id >= -|bs| && forall i | 0 <= i < |bs| :: bs[i].items != []
    ensures Devices(bs, id) != []
    decreases Rank(id)
  {
    if id < 0 {
      var items := bs[-1-id].items;
      assert ItemsAbove(items, -1 - id);
      SomethingBelow(bs, items[0]);
    }
  }

  /**
   A stored weight is the weight below the bucket exactly if 32 bits hold that, and the bucket is not
   uniform or its first item weighs the average.
   */
  lemma StoredWeightExact(disks: seq<Disk>, layers: seq<Layer>, n: nat, capacity: int -> nat, p: nat)
    requires n <= |layers| && forall i | 0 <= i < |disks| :: capacity(disks[i].id) == disks[i].capacity
    requires p < |Built(disks, layers, n).bs|
    ensures var bs := Built(disks, layers, n).bs;
            && Layered(bs) && RecordedAt(bs, capacity, p)
            && (bs[p].weight == WeightBelow(bs, capacity, -1 - p) <==> StoresWeight(bs, capacity, p))
  {
    BuiltIsSound(disks, layers, n, capacity);
    assert RecordedAt(Built(disks, layers, n).bs, capacity, p);
  }

  ghost predicate StoresWeight(bs: seq<Bucket>, capacity: int -> nat, p: nat)
    requires Layered(bs) && p < |bs| && RecordedAt(bs, capacity, p)
  {
    && WeightBelow(bs, capacity, -1 - p) < TWO_TO_THE_32
    && (bs[p].alg == UNIFORM ==> Low32(UniformWeight(bs, capacity, p)) == WeightBelow(bs, capacity, -1 - p))
  }

  /** One disk of capacity 2^32: its bucket stores nothing. */
  lemma LargeCapacityForgotten(layer: Layer)
    ensures var h := Built([Disk(0, TWO_TO_THE_32)], [layer], 1);
            h.weights == [0] && |h.bs| == 1 && h.bs[0].weight == 0
  {
    var disks := [Disk(0, TWO_TO_THE_32)];
    var items, weights := IdsOf(disks), Weights32(disks);
    assert Built(disks, [layer], 0) == Hierarchy([], items, weights);
    assert items == [0] && weights == [0] && weights[..1] == weights && weights[1..] == [] && items[1..] == [];
    assert Sum(weights) == 0;
    assert Packed(layer, 1, items, weights, 0) == [PackOne(layer, 1, items[..1], weights[..1], 0)];
    assert PackedWeights(layer, items, weights) == [0];
  }

  /** Disks of capacity 1 and 3 in one uniform bucket: 4 is handed on, and 2 is stored. */
  lemma UniformForgetsWeight()
    ensures var h := Built([Disk(0, 1), Disk(1, 3)], [Layer(UNIFORM, 0)], 1);
            h.weights == [4] && |h.bs| == 1 && h.bs[0].weight == 2
  {
    var disks, layer := [Disk(0, 1), Disk(1, 3)], Layer(UNIFORM, 0);
    var items, weights := IdsOf(disks), Weights32(disks);
    assert Built(disks, [layer], 0) == Hierarchy([], items, weights);
    assert items == [0, 1] && weights == [1, 3] && weights[1..] == [3] && weights[..2] == weights;
    assert Sum([3]) == 3 && Sum(weights) == 4;
    assert items[2..] == [] && weights[2..] == [];
    assert Packed(layer, 1, items, weights, 0) == [PackOne(layer, 1, items[..2], weights[..2], 0)];
    assert PackedWeights(layer, items, weights) == [4];
  }

  /**
   The root, the bucket added last, has every disk below it on exactly one path exactly when the last
   layer could take all items into one bucket; a layer of size 0 always can. It then has the whole
   capacity below it, and stores that weight exactly as every bucket does.
   */
  lemma RootReachesAll(disks: seq<Disk>, layers: seq<Layer>, n: nat, capacity: int -> nat)
    requires 0 < n <= |layers| && disks != []
    requires forall i | 0 <= i < |disks| :: capacity(disks[i].id) == disks[i].capacity
    ensures var h, total := Built(disks, layers, n), Sum(CapacitiesOf(disks));
            && h.bs != [] && Layered(h.bs)
            && (Devices(h.bs, -|h.bs|) == IdsOf(disks) <==> |h.items| == 1)
            && (|h.items| == 1 <==> layers[n-1].size == 0 || layers[n-1].size >= |Built(disks, layers, n - 1).items|)
            && (|h.items| == 1 ==> RootStores(h, capacity, total, layers[n-1].alg))
  {
    var h := Built(disks, layers, n);
    LastCoversAll(disks, layers, n, capacity);
    OneItemOnTop(disks, layers, n);
    if |h.items| == 1 {
      BuiltIsSound(disks, layers, n, capacity);
      RootIsWeighed(disks, layers, n, capacity);
      StoredWeightExact(disks, layers, n, capacity, |h.bs| - 1);
    }
  }

  lemma LastCoversAll(disks: seq<Disk>, layers: seq<Layer>, n: nat, capacity: int -> nat)
    requires 0 < n <= |layers| && disks != []
    requires forall i | 0 <= i < |disks| :: capacity(disks[i].id) == disks[i].capacity
    ensures var h := Built(disks, layers, n);
            h.bs != [] && Layered(h.bs) && (Devices(h.bs, -|h.bs|) == IdsOf(disks) <==> |h.items| == 1)
  {
    var h := Built(disks, layers, n);
    BuiltNonEmpty(disks, layers, n);
    BuiltIsSound(disks, layers, n, capacity);
    BuiltListsOnce(disks, layers, n);
    LastCovers(h.bs, h.items, capacity);
  }

  /**
   The root has the total below it; it stores that if 32 bits hold it, and a uniform root its first item's
   average.
   */
  ghost predicate RootStores(h: Hierarchy, capacity: int -> nat, total: int, alg: nat) {
    var root := |h.bs| - 1;
    && h.bs != [] && Layered(h.bs) && RecordedAt(h.bs, capacity, root) && h.bs[root].alg == alg
    && WeightBelow(h.bs, capacity, -|h.bs|) == total && h.weights == [Int32(total)]
    && (h.bs[root].weight == total
        <==>
        total < TWO_TO_THE_32 && (alg == UNIFORM ==> Low32(UniformWeight(h.bs, capacity, root)) == total))
  }

  lemma {:induction false} RootIsWeighed(disks: seq<Disk>, layers: seq<Layer>, n: nat, capacity: int -> nat)
    requires 0 < n <= |layers| && |Built(disks, layers, n).items| == 1
    requires Sound(Built(disks, layers, n), IdsOf(disks), Sum(CapacitiesOf(disks)), capacity)
    ensures var h := Built(disks, layers, n);
            && h.bs != [] && h.bs[|h.bs|-1].alg == layers[n-1].alg
            && WeightBelow(h.bs, capacity, -|h.bs|) == Sum(CapacitiesOf(disks))
            && h.weights == [Int32(Sum(CapacitiesOf(disks)))]
  {
    var h, before := Built(disks, layers, n), Built(disks, layers, n - 1);
    var packed := Packed(layers[n-1], n, before.items, before.weights, |before.bs|);
    assert h == LayerOn(before, layers[n-1], n) && h.bs == before.bs + packed;
    assert packed[0] == h.bs[|h.bs|-1];
    assert WeighedAt(h.bs, capacity, h.items[0], h.weights[0]);
    OnlyDevices(h.bs, capacity, h.items[0], |h.bs|);
    assert h.items == [h.items[0]];
  }

  lemma OneItemOnTop(disks: seq<Disk>, layers: seq<Layer>, n: nat)
    requires 0 < n <= |layers| && disks != []
    ensures |Built(disks, layers, n).items| == 1
       <==> layers[n-1].size == 0 || layers[n-1].size >= |Built(disks, layers, n - 1).items|
  {
    var before := Built(disks, layers, n - 1);
    BuiltNonEmpty(disks, layers, n - 1);
    PackedSingle(layers[n-1], n, before.items, before.weights, |before.bs|);
  }

  /** The last item has all devices below it exactly when it is the only item. */
  lemma {:induction false} LastCovers(bs: seq<Bucket>, items: seq<int>, capacity: int -> nat)
    requires Layered(bs) && ItemsAbove(items, |bs|) && items != [] && forall i | 0 <= i < |bs| :: bs[i].items != []
    ensures items[|items|-1] >= -|bs|
    ensures Devices(bs, items[|items|-1]) == DevicesOfAll(bs, items, |bs|) <==> |items| == 1
  {
    var last := |items| - 1;
    assert items == items[..last] + [items[last]];
    DevicesOfAllAppend(bs, capacity, items[..last], [items[last]], |bs|);
    OnlyDevices(bs, capacity, items[last], |bs|);
    if last > 0 { SomethingBelowAll(bs, items[..last], |bs|); }
  }

  lemma {:induction false} OnlyDevices(bs: seq<Bucket>, capacity: int -> nat, id: int, p: nat)
    requires Layered(bs) && p <= |bs| && ItemsAbove([id], p)
    ensures id >= -|bs| && DevicesOfAll(bs, [id], p) == Devices(bs, id)
    ensures WeightBelowAll(bs, capacity, [id], p) == WeightBelow(bs, capacity, id)
  {
    assert [id][0] == id && 0 <= [id][0] + p;
    assert [id][1..] == [];
  }

  lemma {:induction false} SomethingBelowAll(bs: seq<Bucket>, items: seq<int>, p: nat)
    requires Layered(bs) && p <= |bs| && ItemsAbove(items, p) && items != []
    requires forall i | 0 <= i < |bs| :: bs[i].items != []
    ensures DevicesOfAll(bs, items, p) != []
  {
    SomethingBelow(bs, items[0]);
  }

  lemma {:induction false} BuiltNonEmpty(disks: seq<Disk>, layers: seq<Layer>, n: nat)
    requires n <= |layers| && disks != []
    ensures var h := Built(disks, layers, n);
            h.items != [] && (n > 0 ==> h.bs != [] && h.items[|h.items|-1] == -|h.bs|)
  {
    if n > 0 {
      BuiltNonEmpty(disks, layers, n - 1);
    }
  }
}
