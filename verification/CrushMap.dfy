/** The CRUSH map as an array of bucket slots: bucket -1 - pos is kept in slot pos. */
module CrushMap {

  datatype Bucket = Bucket(id: int, kind: nat, alg: nat, weight: int, items: seq<int>)

  datatype Slot = Empty | Full(bucket: Bucket)

  // ---- slots ----

  /** The first free slot, or the number of slots. */
  function FirstEmpty(slots: seq<Slot>): (pos: nat)
    ensures pos <= |slots|
  {
    if slots == [] || slots[0] == Empty then 0 else 1 + FirstEmpty(slots[1..])
  }

  function Empties(n: nat): (s: seq<Slot>)
    ensures |s| == n && forall i | 0 <= i < n :: s[i] == Empty
  {
    seq(n, _ => Empty)
  }

  /** The slots, doubled from 8 until there is a slot pos. */
  function Grown(slots: seq<Slot>, pos: nat): (s: seq<Slot>)
    ensures |s| > pos && slots <= s && forall i | |slots| <= i < |s| :: s[i] == Empty
    decreases if pos < |slots| then 0 else pos + 1 - |slots|
  {
    if pos < |slots| then slots else Grown(slots + Empties(if slots == [] then 8 else |slots|), pos)
  }

  function Added(slots: seq<Slot>, pos: nat, bucket: Bucket): (s: seq<Slot>)
    ensures |s| > pos
  {
    Grown(slots, pos)[pos := Full(bucket.(id := -1 - pos))]
  }

  /** The buckets bs stand in the first slots, in order, and all other slots are free. */
  ghost predicate Holds(slots: seq<Slot>, bs: seq<Bucket>) {
    && |bs| <= |slots|
    && (forall i | 0 <= i < |bs| :: slots[i] == Full(bs[i]) && bs[i].id == -1 - i)
    && (forall i | |bs| <= i < |slots| :: slots[i] == Empty)
  }

  lemma {:induction false} FirstEmptyAt(slots: seq<Slot>, n: nat)
    requires n <= |slots| && (forall i | 0 <= i < n :: slots[i] != Empty)
    requires n < |slots| ==> slots[n] == Empty
    ensures FirstEmpty(slots) == n
  {
    if n > 0 { FirstEmptyAt(slots[1..], n - 1); }
  }

  /** The next free id is that of the next bucket in order, and adding there appends to the buckets. */
  lemma {:induction false} AddedHolds(slots: seq<Slot>, bs: seq<Bucket>, bucket: Bucket)
    requires Holds(slots, bs)
    ensures FirstEmpty(slots) == |bs|
    ensures Holds(Added(slots, |bs|, bucket), bs + [bucket.(id := -1 - |bs|)])
  {
    FirstEmptyAt(slots, |bs|);
    var s := Added(slots, |bs|, bucket);
    forall i | 0 <= i < |bs| ensures s[i] == Full(bs[i]) {
      assert s[i] == slots[i];
    }
    forall i | |bs| < i < |s| ensures s[i] == Empty {
      if i < |slots| { assert s[i] == slots[i]; }
    }
  }

  class Map {
    var buckets: array<Slot>
    var maxDevices: nat
    var deviceParents: array<nat>
    var bucketParents: array<nat>

    constructor ()
      ensures Holds(buckets[..], []) && fresh(buckets) && maxDevices == 0
    {
      buckets := new Slot[0];
      maxDevices := 0;
      deviceParents, bucketParents := new nat[0], new nat[0];
    }

    method GetNextBucketId() returns (id: int)
      ensures id == -1 - FirstEmpty(buckets[..])
    {
      var pos := 0;
      while pos < buckets.Length && buckets[pos] != Empty
        invariant 0 <= pos <= buckets.Length
        invariant FirstEmpty(buckets[..]) == pos + FirstEmpty(buckets[pos..])
      {
        assert buckets[pos..][1..] == buckets[pos+1..];
        pos := pos + 1;
      }
      id := -1 - pos;
    }

    /** Adds a bucket under the given id, or under the next free one for id 0; its slot must be free. */
    method AddBucket(id: int, bucket: Bucket) returns (newId: int)
      requires id <= 0
      requires id < 0 && -1 - id < buckets.Length ==> buckets[-1-id] == Empty
      modifies this`buckets, buckets
      ensures newId == if id == 0 then -1 - FirstEmpty(old(buckets[..])) else id
      ensures buckets[..] == Added(old(buckets[..]), -1 - newId, bucket)
      ensures buckets == old(buckets) || fresh(buckets)
    {
      newId := id;
      if id == 0 {
        newId := GetNextBucketId();
      }
      var pos := -1 - newId;
      ghost var slots := buckets[..];
      while pos >= buckets.Length
        invariant Grown(slots, pos) == Grown(buckets[..], pos)
        invariant buckets == old(buckets) || fresh(buckets)
        invariant old(buckets[..]) == slots
        decreases pos - buckets.Length
      {
        var oldSize := buckets.Length;
        var maxBuckets := if oldSize != 0 then 2 * oldSize else 8;
        ghost var before := buckets[..];
        buckets := Reallocate(buckets, maxBuckets);
        assert buckets[..] == before + Empties(if before == [] then 8 else |before|);
      }
      buckets[pos] := Full(bucket.(id := newId));
    }
  }

  /** A larger array with the old slots in front and free ones behind. */
  method Reallocate(slots: array<Slot>, size: nat) returns (larger: array<Slot>)
    requires slots.Length <= size
    ensures fresh(larger) && larger[..] == slots[..] + Empties(size - slots.Length)
  {
    larger := new Slot[size](_ => Empty);
    for i := 0 to slots.Length
      invariant larger[..i] == slots[..i]
      invariant forall j | i <= j < size :: larger[j] == Empty
    {
      larger[i] := slots[i];
    }
  }
}
