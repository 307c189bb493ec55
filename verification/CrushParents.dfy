/** Finalizing a CRUSH map: the number of devices, and the parent of every device and bucket. */
module CrushParents {
  import opened Arithmetic
  import opened Sequences
  import opened CrushMap
  import opened CrushBuild

  /** A bucket id as it is stored in the unsigned parent arrays. */
  function Unsigned(id: int): nat { id % TWO_TO_THE_32 }

  /** The last bucket that lists x, stored as its parent; 0 if there is none. */
  function LastParent(bs: seq<Bucket>, x: int): nat {
    if bs == [] then 0
    else if x in bs[|bs|-1].items then Unsigned(bs[|bs|-1].id)
    else LastParent(bs[..|bs|-1], x)
  }

  /** One more than the largest device, or m if that is more. */
  function MaxDevice(items: seq<int>, m: nat): (r: nat)
    ensures r >= m && forall i | 0 <= i < |items| :: items[i] < r
  {
    if items == [] then m
    else
      var r := MaxDevice(items[..|items|-1], m);
      assert items == items[..|items|-1] + [items[|items|-1]];
      if items[|items|-1] >= r then items[|items|-1] + 1 else r
  }

  function MaxDevices(bs: seq<Bucket>): (r: nat)
    ensures forall p, i | 0 <= p < |bs| && 0 <= i < |bs[p].items| :: bs[p].items[i] < r
  {
    if bs == [] then 0
    else
      assert bs == bs[..|bs|-1] + [bs[|bs|-1]];
      MaxDevice(bs[|bs|-1].items, MaxDevices(bs[..|bs|-1]))
  }

  // ---- parents agree with the item lists ----

  lemma DistinctSplit(a: seq<int>, b: seq<int>)
    requires Distinct(a + b)
    ensures Distinct(a) && Distinct(b) && forall x | x in a :: x !in b
  {
    var s := a + b;
    forall i, j | 0 <= i < |a| && 0 <= j < |b| ensures a[i] != b[j] {
      assert s[i] != s[|a|+j];
    }
    forall i, j | 0 <= i < j < |b| ensures b[i] != b[j] {
      assert s[|a|+i] != s[|a|+j];
    }
    forall i, j | 0 <= i < j < |a| ensures a[i] != a[j] {
      assert s[i] != s[j];
    }
  }

  lemma {:induction false} InFlat(bs: seq<Bucket>, p: nat, x: int)
    requires p < |bs| && x in bs[p].items
    ensures x in Flat(bs)
  {
    if p > 0 { InFlat(bs[1..], p - 1, x); }
  }

  lemma {:induction false} NotInFlat(bs: seq<Bucket>, x: int)
    requires x !in Flat(bs)
    ensures LastParent(bs, x) == 0 && forall p | 0 <= p < |bs| :: x !in bs[p].items
  {
    forall p | 0 <= p < |bs| ensures x !in bs[p].items {
      if x in bs[p].items { InFlat(bs, p, x); }
    }
    NoParent(bs, x);
  }

  lemma {:induction false} NoParent(bs: seq<Bucket>, x: int)
    requires forall p | 0 <= p < |bs| :: x !in bs[p].items
    ensures LastParent(bs, x) == 0
    decreases |bs|
  {
    if bs != [] { NoParent(bs[..|bs|-1], x); }
  }

  /** When nothing is listed twice, the last bucket that lists an item is the only one. */
  lemma {:induction false} ParentIsLister(bs: seq<Bucket>, p: nat, x: int)
    requires Distinct(Flat(bs)) && p < |bs| && x in bs[p].items
    ensures LastParent(bs, x) == Unsigned(bs[p].id)
    decreases |bs|
  {
    var n := |bs| - 1;
    var front, last := bs[..n], bs[n];
    assert bs == front + [last];
    FlatAppend(front, [last]);
    assert Flat([last]) == last.items by { assert Flat([last][1..]) == []; }
    DistinctSplit(Flat(front), last.items);
    if p < n {
      assert front[p] == bs[p];
      InFlat(front, p, x);
      ParentIsLister(front, p, x);
    }
  }

  lemma DistinctPrefix(a: seq<int>, b: seq<int>, all: seq<int>, ids: seq<int>)
    requires a + b == all + ids && Distinct(all) && Distinct(ids) && (forall x | x in all :: x !in ids)
    ensures Distinct(a)
  {
    var s := all + ids;
    forall i, j | 0 <= i < j < |a| ensures a[i] != a[j] {
      assert a[i] == (a + b)[i] == s[i] && a[j] == (a + b)[j] == s[j];
      if i < |all| && j >= |all| { assert s[i] in all && s[j] in ids; }
    }
  }

  /**
   In a built hierarchy the parent computed for every listed item is the one bucket that lists it, and
   the items of the top layer have none.
   */
  lemma ParentsAgree(h: Hierarchy, all: seq<int>)
    requires ListsOnce(h, all) && Distinct(all) && forall i | 0 <= i < |all| :: all[i] >= 0
    ensures forall p, x | 0 <= p < |h.bs| && x in h.bs[p].items :: LastParent(h.bs, x) == Unsigned(-1 - p)
    ensures forall x | x in h.items :: LastParent(h.bs, x) == 0
  {
    var ids := Ids(0, |h.bs|);
    assert forall k | 0 <= k < |ids| :: ids[k] < 0;
    DistinctPrefix(Flat(h.bs), h.items, all, ids);
    forall p, x | 0 <= p < |h.bs| && x in h.bs[p].items ensures LastParent(h.bs, x) == Unsigned(-1 - p) {
      ParentIsLister(h.bs, p, x);
    }
    TopNotListed(h, all, ids);
    forall x | x in h.items ensures LastParent(h.bs, x) == 0 {
      NotInFlat(h.bs, x);
    }
  }

  lemma TopNotListed(h: Hierarchy, all: seq<int>, ids: seq<int>)
    requires Flat(h.bs) + h.items == all + ids && Distinct(all) && Distinct(ids) && (forall x | x in all :: x !in ids)
    ensures forall x | x in h.items :: x !in Flat(h.bs)
  {
    DistinctPrefix(all + ids, [], all, ids);
    assert all + ids + [] == all + ids;
    DistinctSplit(Flat(h.bs), h.items);
  }

  // ---- in place ----

  /** Enters one bucket as the parent of its items. */
  method EnterParents(bucket: Bucket, deviceParents: array<nat>, bucketParents: array<nat>)
    requires deviceParents != bucketParents
    requires forall i | 0 <= i < |bucket.items| :: -bucketParents.Length <= bucket.items[i] < deviceParents.Length
    modifies deviceParents, bucketParents
    ensures forall c | 0 <= c < deviceParents.Length ::
              deviceParents[c] == if c in bucket.items then Unsigned(bucket.id) else old(deviceParents[c])
    ensures forall c | 0 <= c < bucketParents.Length ::
              bucketParents[c] == if -1 - c in bucket.items then Unsigned(bucket.id) else old(bucketParents[c])
  {
    for i := 0 to |bucket.items|
      invariant forall c | 0 <= c < deviceParents.Length ::
                  deviceParents[c] == if c in bucket.items[..i] then Unsigned(bucket.id) else old(deviceParents[c])
      invariant forall c | 0 <= c < bucketParents.Length ::
                  bucketParents[c] == if -1 - c in bucket.items[..i] then Unsigned(bucket.id) else old(bucketParents[c])
    {
      var c := bucket.items[i];
      assert bucket.items[..i+1] == bucket.items[..i] + [c];
      if c >= 0 {
        deviceParents[c] := Unsigned(bucket.id);
      } else {
        bucketParents[-1-c] := Unsigned(bucket.id);
      }
    }
    assert bucket.items[..|bucket.items|] == bucket.items;
  }

  /** Every item's parent is the last bucket that lists it. */
  method CalcParents(buckets: array<Slot>, deviceParents: array<nat>, bucketParents: array<nat>, ghost bs: seq<Bucket>)
    requires deviceParents != bucketParents && bucketParents.Length == buckets.Length
    requires Holds(buckets[..], bs) && Layered(bs) && deviceParents.Length == MaxDevices(bs)
    requires forall c | 0 <= c < deviceParents.Length :: deviceParents[c] == 0
    requires forall c | 0 <= c < bucketParents.Length :: bucketParents[c] == 0
    modifies deviceParents, bucketParents
    ensures forall c | 0 <= c < deviceParents.Length :: deviceParents[c] == LastParent(bs, c)
    ensures forall c | 0 <= c < bucketParents.Length :: bucketParents[c] == LastParent(bs, -1 - c)
  {
    for b := 0 to buckets.Length
      invariant buckets[..] == old(buckets[..])
      invariant forall c | 0 <= c < deviceParents.Length :: deviceParents[c] == LastParent(Front(bs, b), c)
      invariant forall c | 0 <= c < bucketParents.Length :: bucketParents[c] == LastParent(Front(bs, b), -1 - c)
    {
      assert buckets[b] == buckets[..][b];
      if buckets[b].Full? {
        var bucket := buckets[b].bucket;
        assert b < |bs| && bucket == bs[b] && ItemsAbove(bs[b].items, b);
        assert Front(bs, b + 1)[..b] == Front(bs, b);
        EnterParents(bucket, deviceParents, bucketParents);
      }
    }
    assert Front(bs, buckets.Length) == bs;
  }

  function Front(bs: seq<Bucket>, b: nat): (r: seq<Bucket>)
    ensures b >= |bs| ==> r == bs
  {
    if b < |bs| then bs[..b] else bs
  }

  /** Called after all buckets have been added. */
  method Finalize(crush: Map, ghost bs: seq<Bucket>)
    requires Holds(crush.buckets[..], bs) && Layered(bs) && crush.maxDevices == 0
    modifies crush
    ensures crush.buckets == old(crush.buckets) && crush.maxDevices == MaxDevices(bs)
    ensures crush.deviceParents.Length == crush.maxDevices && crush.bucketParents.Length == crush.buckets.Length
    ensures forall c | 0 <= c < crush.deviceParents.Length :: crush.deviceParents[c] == LastParent(bs, c)
    ensures forall c | 0 <= c < crush.bucketParents.Length :: crush.bucketParents[c] == LastParent(bs, -1 - c)
  {
    var devices := CountDevices(crush.buckets, bs);
    crush.maxDevices := devices;
    var deviceParents := new nat[devices](_ => 0);
    var bucketParents := new nat[crush.buckets.Length](_ => 0);
    CalcParents(crush.buckets, deviceParents, bucketParents, bs);
    crush.deviceParents, crush.bucketParents := deviceParents, bucketParents;
  }

  method CountDevices(buckets: array<Slot>, ghost bs: seq<Bucket>) returns (devices: nat)
    requires Holds(buckets[..], bs)
    ensures devices == MaxDevices(bs)
  {
    devices := 0;
    for b := 0 to buckets.Length
      invariant devices == MaxDevices(Front(bs, b))
    {
      assert buckets[b] == buckets[..][b];
      if buckets[b].Full? {
        assert b < |bs| && Front(bs, b + 1)[..b] == Front(bs, b);
        devices := LargestItem(buckets[b].bucket.items, devices);
      }
    }
    assert Front(bs, buckets.Length) == bs;
  }

  method LargestItem(items: seq<int>, m: nat) returns (r: nat)
    ensures r == MaxDevice(items, m)
  {
    r := m;
    for i := 0 to |items|
      invariant r == MaxDevice(items[..i], m)
    {
      assert items[..i+1][..i] == items[..i];
      if items[i] >= r { r := items[i] + 1; }
    }
    assert items[..|items|] == items;
  }
}
