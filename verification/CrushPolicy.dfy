/** The CRUSH policy: its layers, and the map that is built for a list of disks. */
module CrushPolicy {
  import opened Arithmetic
  import opened Disks
  import opened CrushMap
  import opened CrushBuild
  import opened CrushChunks
  import opened CrushParents

  method MakeBucket(alg: nat, kind: nat, items: seq<int>, weights: seq<int>) returns (bucket: Bucket)
    requires |items| == |weights| && UNIFORM <= alg <= STRAW
    ensures bucket == Bucket(0, kind, alg, RecordedWeight(alg, weights), items)
  {
    var weight := 0;
    if alg == UNIFORM {
      var itemWeight := if |weights| > 0 then weights[0] else 0;
      weight := Low32(|weights| * itemWeight);
    } else {
      weight := SumOf(weights);
      Int32Sum(Sum(weights), 0);
      weight := Low32(weight);
    }
    bucket := Bucket(0, kind, alg, weight, items);
  }

  /** Adds in 32 bits. */
  method SumOf(weights: seq<int>) returns (sum: int)
    ensures sum == Int32(Sum(weights))
  {
    sum := 0;
    for i := 0 to |weights|
      invariant sum == Int32(Sum(weights[..i]))
    {
      assert weights[..i+1] == weights[..i] + [weights[i]];
      SumAppend(weights[..i], [weights[i]]);
      assert [weights[i]][1..] == [];
      Int32Sum(Sum(weights[..i]), weights[i]);
      sum := Int32(sum + weights[i]);
    }
    assert weights[..|weights|] == weights;
  }

  /** The items for the next bucket, from `pos` on. */
  method TakeItems(size: nat, items: seq<int>, weights: seq<int>, pos: nat)
    returns (taken: seq<int>, takenWeights: seq<int>, weight: int, pos': nat)
    requires |items| == |weights| && pos < |items|
    ensures pos' == pos + Taken(size, |items| - pos)
    ensures taken == items[pos..pos'] && takenWeights == weights[pos..pos'] && weight == Int32(Sum(weights[pos..pos']))
  {
    taken, takenWeights, pos' := [], [], pos;
    var j := 0;
    while (j < size || size == 0) && pos' < |items|
      invariant pos <= pos' <= |items| && j == pos' - pos && (size == 0 || j <= size)
      invariant taken == items[pos..pos'] && takenWeights == weights[pos..pos']
    {
      taken, takenWeights := taken + [items[pos']], takenWeights + [weights[pos']];
      pos' := pos' + 1;
      j := j + 1;
    }
    weight := SumOf(takenWeights);
  }

  /** Packs one layer into the map. */
  method BuildLayer(crush: Map, layer: Layer, kind: nat, items: seq<int>, weights: seq<int>, ghost bs: seq<Bucket>)
    returns (curItems: seq<int>, curWeights: seq<int>, rootId: int)
    requires |items| == |weights| && items != [] && Holds(crush.buckets[..], bs) && Supported(layer)
    modifies crush`buckets, crush.buckets
    ensures crush.buckets == old(crush.buckets) || fresh(crush.buckets)
    ensures var packed := Packed(layer, kind, items, weights, |bs|);
            && Holds(crush.buckets[..], bs + packed)
            && curItems == Ids(|bs|, |bs| + |packed|) && rootId == -(|bs| + |packed|)
    ensures curWeights == PackedWeights(layer, items, weights)
  {
    ghost var now := bs;
    ghost var all, sums := Packed(layer, kind, items, weights, |bs|), PackedWeights(layer, items, weights);
    curItems, curWeights, rootId := [], [], 0;
    var pos := 0;
    while pos < |items|
      invariant 0 <= pos <= |items| && (crush.buckets == old(crush.buckets) || fresh(crush.buckets))
      invariant Holds(crush.buckets[..], now) && |now| >= |bs|
      invariant Remaining(layer, kind, items[pos..], weights[pos..], bs + all, now, Ids(|bs|, |bs| + |all|), curItems,
                sums, curWeights)
      invariant pos > 0 ==> rootId == -|now|
    {
      var weight;
      rootId, weight, pos, now := PackMore(crush, layer, kind, items, weights, pos, now, bs + all,
          Ids(|bs|, |bs| + |all|), curItems, sums, curWeights);
      curItems, curWeights := curItems + [rootId], curWeights + [weight];
    }
    RemainingNone(layer, kind, items[pos..], weights[pos..], bs + all, now, Ids(|bs|, |bs| + |all|), curItems, sums,
        curWeights);
  }

  /** Packs one more bucket; what it leaves and what is packed still make up the whole layer. */
  method PackMore(crush: Map, layer: Layer, kind: nat, items: seq<int>, weights: seq<int>, pos: nat,
                  ghost now: seq<Bucket>, ghost all: seq<Bucket>, ghost ids: seq<int>, ghost curItems: seq<int>,
                  ghost sums: seq<int>, ghost curWeights: seq<int>)
    returns (id: int, weight: int, next: nat, ghost now': seq<Bucket>)
    requires |items| == |weights| && pos < |items| && Supported(layer) && Holds(crush.buckets[..], now)
    requires Remaining(layer, kind, items[pos..], weights[pos..], all, now, ids, curItems, sums, curWeights)
    modifies crush`buckets, crush.buckets
    ensures crush.buckets == old(crush.buckets) || fresh(crush.buckets)
    ensures pos < next <= |items| && |now'| == |now| + 1 && id == -|now'| && Holds(crush.buckets[..], now')
    ensures Remaining(layer, kind, items[next..], weights[next..], all, now', ids, curItems + [id], sums,
                      curWeights + [weight])
  {
    id, weight, next := PackNext(crush, layer, kind, items, weights, pos, now);
    RemainingAt(layer, kind, items, weights, pos, all, now, ids, curItems, sums, curWeights);
    now' := now + [PackOne(layer, kind, items[pos..next], weights[pos..next], |now|)];
  }

  /** Packs the items for one bucket, from `pos` on. */
  method PackNext(crush: Map, layer: Layer, kind: nat, items: seq<int>, weights: seq<int>, pos: nat,
                  ghost now: seq<Bucket>)
    returns (id: int, weight: int, next: nat)
    requires |items| == |weights| && pos < |items| && Supported(layer) && Holds(crush.buckets[..], now)
    modifies crush`buckets, crush.buckets
    ensures crush.buckets == old(crush.buckets) || fresh(crush.buckets)
    ensures next == pos + Taken(layer.size, |items| - pos)
    ensures Holds(crush.buckets[..], now + [PackOne(layer, kind, items[pos..next], weights[pos..next], |now|)])
    ensures id == -1 - |now| && weight == Int32(Sum(weights[pos..next]))
  {
    var taken, takenWeights;
    taken, takenWeights, weight, next := TakeItems(layer.size, items, weights, pos);
    id := AddPacked(crush, layer, kind, taken, takenWeights, now);
  }

  lemma RemainingAt(layer: Layer, kind: nat, items: seq<int>, weights: seq<int>, pos: nat, all: seq<Bucket>,
                    now: seq<Bucket>, ids: seq<int>, curItems: seq<int>, sums: seq<int>,
                    curWeights: seq<int>)
    requires |items| == |weights| && pos < |items|
    requires Remaining(layer, kind, items[pos..], weights[pos..], all, now, ids, curItems, sums, curWeights)
    ensures var next := pos + Taken(layer.size, |items| - pos);
            var packed := PackOne(layer, kind, items[pos..next], weights[pos..next], |now|);
            Remaining(layer, kind, items[next..], weights[next..], all, now + [packed], ids, curItems + [-1 - |now|],
                      sums, curWeights + [Int32(Sum(weights[pos..next]))])
  {
    var t := Taken(layer.size, |items| - pos);
    RemainingStep(layer, kind, items[pos..], weights[pos..], all, now, ids, curItems, sums, curWeights);
    assert items[pos..][..t] == items[pos..pos+t] && items[pos..][t..] == items[pos+t..];
    assert weights[pos..][..t] == weights[pos..pos+t] && weights[pos..][t..] == weights[pos+t..];
  }

  /** What has been packed, and what the items that remain will still add, make up the whole layer. */
  ghost predicate Remaining(layer: Layer, kind: nat, items: seq<int>, weights: seq<int>, all: seq<Bucket>,
                            now: seq<Bucket>,
                            ids: seq<int>, curItems: seq<int>, sums: seq<int>, curWeights: seq<int>)
  {
    && |items| == |weights|
    && all == now + Packed(layer, kind, items, weights, |now|)
    && ids == curItems + Ids(|now|, |all|)
    && sums == curWeights + PackedWeights(layer, items, weights)
  }

  lemma RemainingStep(layer: Layer, kind: nat, items: seq<int>, weights: seq<int>, all: seq<Bucket>, now: seq<Bucket>,
                      ids: seq<int>, curItems: seq<int>, sums: seq<int>, curWeights: seq<int>)
    requires Remaining(layer, kind, items, weights, all, now, ids, curItems, sums, curWeights) && items != []
    ensures var t := Taken(layer.size, |items|);
            var packed := PackOne(layer, kind, items[..t], weights[..t], |now|);
            Remaining(layer, kind, items[t..], weights[t..], all, now + [packed], ids, curItems + [-1 - |now|],
                      sums, curWeights + [Int32(Sum(weights[..t]))])
  {
    var t := Taken(layer.size, |items|);
    var packed := PackOne(layer, kind, items[..t], weights[..t], |now|);
    var rest := Packed(layer, kind, items[t..], weights[t..], |now| + 1);
    assert now + ([packed] + rest) == (now + [packed]) + rest;
    assert Ids(|now|, |all|) == [-1 - |now|] + Ids(|now| + 1, |all|);
    assert curItems + ([-1 - |now|] + Ids(|now| + 1, |all|)) == (curItems + [-1 - |now|]) + Ids(|now| + 1, |all|);
    var more := PackedWeights(layer, items[t..], weights[t..]);
    assert curWeights + ([Int32(Sum(weights[..t]))] + more) == (curWeights + [Int32(Sum(weights[..t]))]) + more;
  }

  lemma RemainingNone(layer: Layer, kind: nat, items: seq<int>, weights: seq<int>, all: seq<Bucket>, now: seq<Bucket>,
                      ids: seq<int>, curItems: seq<int>, sums: seq<int>, curWeights: seq<int>)
    requires Remaining(layer, kind, items, weights, all, now, ids, curItems, sums, curWeights) && items == []
    ensures now == all && curItems == ids && curWeights == sums
  {
  }

  /** Makes one bucket and adds it under the next free id. */
  method AddPacked(crush: Map, layer: Layer, kind: nat, items: seq<int>, weights: seq<int>, ghost bs: seq<Bucket>)
    returns (id: int)
    requires |items| == |weights| && Supported(layer) && Holds(crush.buckets[..], bs)
    modifies crush`buckets, crush.buckets
    ensures crush.buckets == old(crush.buckets) || fresh(crush.buckets)
    ensures Holds(crush.buckets[..], bs + [PackOne(layer, kind, items, weights, |bs|)]) && id == -1 - |bs|
  {
    var bucket := MakeBucket(layer.alg, kind, items, weights);
    AddedHolds(crush.buckets[..], bs, bucket);
    id := crush.AddBucket(0, bucket);
  }

  ghost predicate Supported(layer: Layer) { UNIFORM <= layer.alg <= STRAW }

  /** Builds and finalizes the whole map; fails without layers or disks. */
  method BuildCrushMap(layers: seq<Layer>, disks: seq<Disk>)
    returns (ok: bool, crush: Map, rootId: int, ghost h: Hierarchy)
    requires forall i | 0 <= i < |layers| :: Supported(layers[i])
    ensures fresh(crush) && (ok <==> layers != [] && disks != [])
    ensures ok ==> h == Built(disks, layers, |layers|) && rootId == -|h.bs| && Finalized(crush, h.bs)
  {
    crush := new Map();
    ok := layers != [] && disks != [];
    rootId := 0;
    h := Hierarchy([], IdsOf(disks), Weights32(disks));
    if !ok { return; }
    var items, weights := LowestLayer(disks);
    for i := 0 to |layers|
      invariant fresh(crush) && fresh(crush.buckets) && crush.maxDevices == 0
      invariant h == Built(disks, layers, i) && items == h.items && weights == h.weights
      invariant Holds(crush.buckets[..], h.bs) && (i > 0 ==> rootId == -|h.bs|)
    {
      items, weights, rootId, h := AddLayer(crush, layers, disks, i, items, weights, h);
    }
    BuiltLayered(disks, layers, |layers|);
    Finalize(crush, h.bs);
  }

  /** Builds one layer on those before it. */
  method AddLayer(crush: Map, layers: seq<Layer>, ghost disks: seq<Disk>, i: nat, items: seq<int>, weights: seq<int>,
                  ghost h: Hierarchy)
    returns (curItems: seq<int>, curWeights: seq<int>, rootId: int, ghost h': Hierarchy)
    requires i < |layers| && Supported(layers[i]) && disks != [] && h == Built(disks, layers, i)
    requires items == h.items && weights == h.weights && Holds(crush.buckets[..], h.bs)
    modifies crush`buckets, crush.buckets
    ensures crush.buckets == old(crush.buckets) || fresh(crush.buckets)
    ensures h' == Built(disks, layers, i + 1) && curItems == h'.items && curWeights == h'.weights
    ensures Holds(crush.buckets[..], h'.bs) && rootId == -|h'.bs|
  {
    BuiltNonEmpty(disks, layers, i);
    curItems, curWeights, rootId := BuildLayer(crush, layers[i], i + 1, items, weights, h.bs);
    h' := LayerOn(h, layers[i], i + 1);
  }

  /** The map holds the buckets bs, and the parents computed from them. */
  ghost predicate Finalized(crush: Map, bs: seq<Bucket>)
    reads crush, crush.buckets, crush.deviceParents, crush.bucketParents
  {
    && Holds(crush.buckets[..], bs) && crush.maxDevices == MaxDevices(bs) == crush.deviceParents.Length
    && crush.bucketParents.Length == crush.buckets.Length
    && (forall c | 0 <= c < crush.deviceParents.Length :: crush.deviceParents[c] == LastParent(bs, c))
    && (forall c | 0 <= c < crush.bucketParents.Length :: crush.bucketParents[c] == LastParent(bs, -1 - c))
  }

  method LowestLayer(disks: seq<Disk>) returns (items: seq<int>, weights: seq<int>)
    ensures items == IdsOf(disks) && weights == Weights32(disks)
  {
    items, weights := [], [];
    for i := 0 to |disks|
      invariant items == IdsOf(disks)[..i] && weights == Weights32(disks)[..i]
    {
      items, weights := items + [disks[i].id], weights + [Int32(disks[i].capacity)];
    }
  }

  lemma {:induction false} BuiltLayered(disks: seq<Disk>, layers: seq<Layer>, n: nat)
    requires n <= |layers|
    ensures Layered(Built(disks, layers, n).bs)
  {
    if n > 0 {
      BuiltLayered(disks, layers, n - 1);
      BuiltAbove(disks, layers, n - 1);
      var h := Built(disks, layers, n - 1);
      PackedItemsAbove(layers[n-1], n, h.items, h.weights, |h.bs|, |h.bs|);
      AppendLayered(h.bs, Packed(layers[n-1], n, h.items, h.weights, |h.bs|));
    }
  }

  // ---- the layers of the policy ----

  /** The disks of one failure domain when n disks are spread over them. */
  function PerDomain(n: nat, domains: nat): nat
    requires n > 0 && domains > 0
  {
    (n - 1) / domains + 1
  }

  function DefaultLayers(n: nat, domains: nat): seq<Layer>
    requires n > 0 && domains > 0
  {
    [Layer(UNIFORM, PerDomain(n, domains)), Layer(STRAW, 0)]
  }

  /** That is the least number that is enough. */
  lemma PerDomainIsLeast(n: nat, domains: nat)
    requires n > 0 && domains > 0
    ensures IsLeastPer(PerDomain(n, domains), n, domains)
  {
    var q := (n - 1) / domains;
    assert q * domains <= n - 1 < (q + 1) * domains;
    assert (q + 1) * domains == domains * (q + 1) && q * domains == domains * q;
  }

  /** Whatever layers are given, the built map spreads the disks evenly over the failure domains. */
  lemma DisksAreSpread(disks: seq<Disk>, layers: seq<Layer>, domains: nat)
    requires disks != [] && domains > 0
    ensures var resized := LayersFor(layers, |disks|, domains);
            Spread(Built(disks, resized, |resized|).bs, IdsOf(disks), domains)
  {
    var resized := LayersFor(layers, |disks|, domains);
    PerDomainIsLeast(|disks|, domains);
    LowestLayerSpreads(disks, resized, |resized|, domains);
  }

  /**
   The default map has at most as many domains as asked for, and one root above all disks that has their
   whole capacity below it and stores that if 32 bits hold it. The domains are uniform: they store what
   their disks hold exactly if 32 bits hold that and it is the number of disks times the first capacity.
   */
  lemma {:induction false} DefaultMapIsTree(disks: seq<Disk>, domains: nat, capacity: int -> nat)
    requires disks != [] && domains > 0 && forall i | 0 <= i < |disks| :: capacity(disks[i].id) == disks[i].capacity
    ensures var layers := DefaultLayers(|disks|, domains);
            var h := Built(disks, layers, 2);
            && h.bs != [] && SpreadOver(h.bs, IdsOf(disks), domains, layers[0].size, |h.bs| - 1)
            && h.items == [-|h.bs|] && RootStores(h, capacity, Sum(CapacitiesOf(disks)), STRAW)
            && Layered(h.bs) && Devices(h.bs, -|h.bs|) == IdsOf(disks)
            && forall p | 0 <= p < |h.bs| - 1 :: UniformAt(h.bs, capacity, p)
  {
    var layers := DefaultLayers(|disks|, domains);
    RootReachesAll(disks, layers, 2, capacity);
    PerDomainIsLeast(|disks|, domains);
    LowestLayerSpreads(disks, layers, 2, domains);
    DefaultDomains(disks, domains);
    var h := Built(disks, layers, 2);
    forall p | 0 <= p < |h.bs| - 1 ensures UniformAt(h.bs, capacity, p) {
      StoredWeightExact(disks, layers, 2, capacity, p);
    }
  }

  /** All buckets but the root are domains, and uniform. */
  lemma {:induction false} DefaultDomains(disks: seq<Disk>, domains: nat)
    requires disks != [] && domains > 0
    ensures var layers := DefaultLayers(|disks|, domains);
            var h, lower := Built(disks, layers, 2), Built(disks, layers, 1);
            && h.bs != [] && |h.bs| == |lower.bs| + 1 && h.items == [-|h.bs|]
            && forall p | 0 <= p < |h.bs| - 1 :: h.bs[p].alg == UNIFORM
  {
    var layers := DefaultLayers(|disks|, domains);
    var h, lower := Built(disks, layers, 2), Built(disks, layers, 1);
    BuiltNonEmpty(disks, layers, 1);
    PackedSingle(layers[1], 2, lower.items, lower.weights, |lower.bs|);
    forall p | 0 <= p < |h.bs| - 1 ensures h.bs[p].alg == UNIFORM {
      assert h.bs[p] == lower.bs[p];
    }
  }

  /** A uniform bucket stores the weight below it exactly if 32 bits hold it and its first item weighs the average. */
  ghost predicate UniformAt(bs: seq<Bucket>, capacity: int -> nat, p: nat)
    requires Layered(bs) && p < |bs|
  {
    && bs[p].alg == UNIFORM && RecordedAt(bs, capacity, p)
    && (bs[p].weight == WeightBelow(bs, capacity, -1 - p) <==> StoresWeight(bs, capacity, p))
  }

  /** Ten failure domains unless another number is given. */
  function Domains(domains: nat): (r: nat)
    ensures r > 0
  {
    if domains == 0 then 10 else domains
  }

  /** The lowest layer is sized by the number of failure domains, whatever it was before. */
  function LayersFor(layers: seq<Layer>, n: nat, domains: nat): (r: seq<Layer>)
    requires n > 0 && domains > 0
    ensures r != []
  {
    if layers == [] then DefaultLayers(n, domains) else layers[0 := Layer(layers[0].alg, PerDomain(n, domains))]
  }

  method ResizeLayers(layers: seq<Layer>, n: nat, domains: nat) returns (r: seq<Layer>)
    requires n > 0 && domains > 0 && forall i | 0 <= i < |layers| :: Supported(layers[i])
    ensures r == LayersFor(layers, n, domains) && forall i | 0 <= i < |r| :: Supported(r[i])
  {
    var perDomain := (n - 1) / domains + 1;
    if |layers| == 0 {
      r := [Layer(UNIFORM, perDomain), Layer(STRAW, 0)];
    } else {
      r := layers[0 := Layer(layers[0].alg, perDomain)];
    }
  }

  class DistCRUSH {
    var failureDomains: nat
    var layers: seq<Layer>
    var allDisks: seq<Disk>
    var crush: Map
    var rootId: int
    /** What the map holds. */
    ghost var hierarchy: Hierarchy

    constructor (failureDomains: nat, layers: seq<Layer>)
      ensures this.failureDomains == failureDomains && this.layers == layers && allDisks == []
    {
      this.failureDomains, this.layers := failureDomains, layers;
      allDisks, rootId := [], 0;
      crush := new Map();
      hierarchy := Hierarchy([], [], []);
    }

    /**
     Builds the map for the given disks, with default layers if there are none; otherwise the lowest
     layer is resized to the number of failure domains. An empty list of disks is ignored.
     */
    method SetDisks(disks: seq<Disk>)
      requires forall i | 0 <= i < |layers| :: Supported(layers[i])
      modifies this
      ensures disks == [] ==> unchanged(this)
      ensures disks != [] ==>
                && allDisks == old(allDisks) + disks
                && failureDomains == Domains(old(failureDomains))
                && layers == LayersFor(old(layers), |disks|, failureDomains)
                && hierarchy == Built(disks, layers, |layers|)
                && rootId == -|hierarchy.bs| && Finalized(crush, hierarchy.bs)
      ensures disks != [] ==>
                Spread(hierarchy.bs, IdsOf(disks), failureDomains)
      ensures disks != [] && old(layers) != []
              ==> layers[1..] == old(layers)[1..] && layers[0].alg == old(layers)[0].alg
    {
      if |disks| == 0 { return; }
      allDisks := allDisks + disks;
      if failureDomains == 0 { failureDomains := 10; }
      var resized := ResizeLayers(layers, |disks|, failureDomains);
      layers := resized;
      DisksAreSpread(disks, old(layers), failureDomains);
      var ok, built, root, h := BuildCrushMap(resized, disks);
      crush, rootId, hierarchy := built, root, h;
    }
  }
}
