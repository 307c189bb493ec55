/**
 Disks whose capacities agree in their low 32 bits form a cluster, weighted by the first of them;
 clusters are numbered by first occurrence in the list of disks.
 */
module Clusters {
  import opened Arithmetic
  import opened Disks

  /** Clusters are looked up by an `int`, which keeps the low 32 bits of the capacity. */
  function KeyOf(capacity: nat): nat { capacity % TWO_TO_THE_32 }

  /** The keys in the order of their first occurrence. */
  function Keys(disks: seq<Disk>): seq<nat>
    decreases |disks|
  {
    if disks == [] then []
    else
      var ks, key := Keys(disks[..|disks|-1]), KeyOf(disks[|disks|-1].capacity);
      if key in ks then ks else ks + [key]
  }

  /** The weights of the clusters: the capacity of the first disk of each. */
  function Kinds(disks: seq<Disk>): (ws: seq<nat>)
    ensures |ws| == |Keys(disks)|
    decreases |disks|
  {
    if disks == [] then []
    else
      var before, d := disks[..|disks|-1], disks[|disks|-1];
      if KeyOf(d.capacity) in Keys(before) then Kinds(before) else Kinds(before) + [d.capacity]
  }

  ghost predicate HasKey(disks: seq<Disk>, x: nat) {
    exists i | 0 <= i < |disks| :: KeyOf(disks[i].capacity) == x
  }

  ghost predicate IsCapacity(disks: seq<Disk>, x: nat) {
    exists i | 0 <= i < |disks| :: disks[i].capacity == x
  }

  /** Exactly the keys of the disks, each once. */
  lemma {:induction false} KeysListed(disks: seq<Disk>)
    ensures forall x :: x in Keys(disks) <==> HasKey(disks, x)
    ensures forall i, j | 0 <= i < j < |Keys(disks)| :: Keys(disks)[i] != Keys(disks)[j]
    decreases |disks|
  {
    if disks != [] {
      var n := |disks| - 1;
      KeysListed(disks[..n]);
      assert disks == disks[..n] + [disks[n]];
      forall x ensures HasKey(disks, x) <==> HasKey(disks[..n], x) || KeyOf(disks[n].capacity) == x {
        if HasKey(disks[..n], x) {
          var i :| 0 <= i < n && KeyOf(disks[..n][i].capacity) == x;
          assert disks[i] == disks[..n][i];
        }
        if i :| 0 <= i < n && KeyOf(disks[i].capacity) == x { assert disks[..n][i] == disks[i]; }
      }
    }
  }

  /** Every weight is the capacity of a disk with the cluster's key. */
  lemma {:induction false} KindHasKey(disks: seq<Disk>, c: nat)
    requires c < |Kinds(disks)|
    ensures KeyOf(Kinds(disks)[c]) == Keys(disks)[c] && IsCapacity(disks, Kinds(disks)[c])
    decreases |disks|
  {
    var n := |disks| - 1;
    if c < |Kinds(disks[..n])| {
      KindHasKey(disks[..n], c);
      var i :| 0 <= i < n && disks[..n][i].capacity == Kinds(disks[..n])[c];
      assert disks[i] == disks[..n][i];
    } else {
      assert disks[n].capacity == Kinds(disks)[c];
    }
  }

  function IndexOf(ks: seq<nat>, x: nat): (i: nat)
    requires x in ks
    ensures i < |ks| && ks[i] == x
  {
    if ks[0] == x then 0 else 1 + IndexOf(ks[1..], x)
  }

  function KindIndex(disks: seq<Disk>, i: nat): (c: nat)
    requires i < |disks|
    ensures c < |Kinds(disks)|
  {
    KeysListed(disks);
    assert HasKey(disks, KeyOf(disks[i].capacity));
    IndexOf(Keys(disks), KeyOf(disks[i].capacity))
  }

  lemma KindIndexKey(disks: seq<Disk>, i: nat)
    requires i < |disks|
    ensures KeyOf(disks[i].capacity) in Keys(disks)
    ensures KindIndex(disks, i) == IndexOf(Keys(disks), KeyOf(disks[i].capacity))
  {
    KeysListed(disks);
    assert HasKey(disks, KeyOf(disks[i].capacity));
  }

  lemma {:induction false} KindIndexPrefix(disks: seq<Disk>, n: nat, i: nat)
    requires i < n <= |disks|
    ensures KindIndex(disks[..n], i) == KindIndex(disks, i)
    decreases |disks|
  {
    if n < |disks| {
      var before := disks[..|disks|-1];
      assert before[..n] == disks[..n];
      KindIndexPrefix(before, n, i);
      KindIndexKey(before, i);
      KindIndexKey(disks, i);
      if KeyOf(disks[|disks|-1].capacity) !in Keys(before) {
        IndexOfAppend(Keys(before), KeyOf(disks[|disks|-1].capacity), KeyOf(disks[i].capacity));
      }
    } else {
      assert disks[..n] == disks;
    }
  }

  /** Clusters are numbered by their first disks: a disk of an earlier one stands before every disk of a later one. */
  lemma {:induction false} EarlierKindsFirst(disks: seq<Disk>, j: nat, c: nat)
    requires j < |disks| && c < KindIndex(disks, j)
    ensures exists i: nat :: i < j && KindIndex(disks, i) == c
    decreases j
  {
    var before, key := disks[..j], KeyOf(disks[j].capacity);
    KindIndexPrefix(disks, j + 1, j);
    assert disks[..j+1][..j] == before;
    KindIndexKey(disks[..j+1], j);
    KeysListed(before);
    KeysListed(disks[..j+1]);
    if key in Keys(before) {
      var i :| 0 <= i < j && KeyOf(before[i].capacity) == key;
      KindIndexKey(disks, i);
      KindIndexKey(disks, j);
      EarlierKindsFirst(disks, i, c);
    } else {
      IndexOfAppend(Keys(before), key, key);
      assert HasKey(before, Keys(before)[c]);
      var i :| 0 <= i < j && KeyOf(before[i].capacity) == Keys(before)[c];
      KindIndexKey(before, i);
      KindIndexPrefix(disks, j, i);
    }
  }

  /** The cluster of every disk. */
  function KindIndices(disks: seq<Disk>): (r: seq<nat>)
    ensures |r| == |disks| && forall i | 0 <= i < |r| :: r[i] == KindIndex(disks, i)
  {
    seq(|disks|, i requires 0 <= i < |disks| => KindIndex(disks, i))
  }

  /** No two different capacities have the same key. */
  ghost predicate KeysTellApart(disks: seq<Disk>) {
    forall i, j | 0 <= i < |disks| && 0 <= j < |disks| && KeyOf(disks[i].capacity) == KeyOf(disks[j].capacity) ::
      disks[i].capacity == disks[j].capacity
  }

  /** Every disk is in a cluster of its own capacity exactly when no two different capacities share a key. */
  lemma ClustersAreCapacities(disks: seq<Disk>)
    ensures (forall i | 0 <= i < |disks| :: Kinds(disks)[KindIndices(disks)[i]] == disks[i].capacity)
       <==> KeysTellApart(disks)
  {
    var ws, s := Kinds(disks), KindIndices(disks);
    if KeysTellApart(disks) {
      forall i | 0 <= i < |disks| ensures ws[s[i]] == disks[i].capacity {
        KindIndexKey(disks, i);
        KindHasKey(disks, s[i]);
      }
    }
    if forall i | 0 <= i < |disks| :: ws[s[i]] == disks[i].capacity {
      forall i, j | 0 <= i < |disks| && 0 <= j < |disks| && KeyOf(disks[i].capacity) == KeyOf(disks[j].capacity)
        ensures disks[i].capacity == disks[j].capacity
      {
        KindIndexKey(disks, i);
        KindIndexKey(disks, j);
        assert s[i] == s[j];
      }
    }
  }

  /** Capacities that 32 bits hold are told apart. */
  lemma SmallToldApart(disks: seq<Disk>)
    requires forall i | 0 <= i < |disks| :: disks[i].capacity < TWO_TO_THE_32
    ensures KeysTellApart(disks)
  {
  }

  /** Capacities 2^32 and 2^33 make one cluster, with the first as its weight. */
  lemma LargeCapacitiesMerge(a: nat, b: nat)
    ensures var disks := [Disk(a, TWO_TO_THE_32), Disk(b, 2 * TWO_TO_THE_32)];
            Kinds(disks) == [TWO_TO_THE_32] && KindIndices(disks) == [0, 0] && !KeysTellApart(disks)
  {
    var disks := [Disk(a, TWO_TO_THE_32), Disk(b, 2 * TWO_TO_THE_32)];
    assert disks[..1][..0] == [] && Keys([]) == [] && Kinds([]) == [];
    assert KeyOf(TWO_TO_THE_32) == 0 == KeyOf(2 * TWO_TO_THE_32);
    assert Keys(disks[..1]) == [0] && Kinds(disks[..1]) == [TWO_TO_THE_32];
    assert Keys(disks) == [0];
    KindIndexKey(disks, 0);
    KindIndexKey(disks, 1);
    assert disks[0].capacity != disks[1].capacity;
  }

  /** A third disk of another capacity between the two leaves the list ungrouped. */
  lemma LargeCapacitiesUngrouped(a: nat, b: nat, c: nat)
    ensures !Grouped(KindIndices([Disk(a, TWO_TO_THE_32), Disk(b, 5), Disk(c, 2 * TWO_TO_THE_32)]))
  {
    var disks := [Disk(a, TWO_TO_THE_32), Disk(b, 5), Disk(c, 2 * TWO_TO_THE_32)];
    assert KeyOf(TWO_TO_THE_32) == 0 == KeyOf(2 * TWO_TO_THE_32) && KeyOf(5) == 5;
    assert disks[..2][..1] == disks[..1] && disks[..1][..0] == [];
    assert Keys(disks[..1]) == [0] && Keys(disks[..2]) == [0, 5] && Keys(disks) == [0, 5];
    assert [0, 5][1..] == [5];
    KindIndexKey(disks, 1);
    KindIndexKey(disks, 2);
    assert KindIndices(disks)[1] == 1 && KindIndices(disks)[2] == 0;
  }

  /** How many entries are v. */
  function CountOf(s: seq<nat>, v: nat): (n: nat)
    ensures n <= |s|
    decreases |s|
  {
    if s == [] then 0 else CountOf(s[..|s|-1], v) + (if s[|s|-1] == v then 1 else 0)
  }

  /** How many entries are below v. */
  function CountBelow(s: seq<nat>, v: nat): (n: nat)
    ensures n <= |s|
    decreases |s|
  {
    if s == [] then 0 else CountBelow(s[..|s|-1], v) + (if s[|s|-1] < v then 1 else 0)
  }

  lemma {:induction false} CountBelowStep(s: seq<nat>, v: nat)
    ensures CountBelow(s, v + 1) == CountBelow(s, v) + CountOf(s, v)
    decreases |s|
  {
    if s != [] { CountBelowStep(s[..|s|-1], v); }
  }

  lemma {:induction false} CountBelowAll(s: seq<nat>, v: nat)
    requires forall i | 0 <= i < |s| :: s[i] < v
    ensures CountBelow(s, v) == |s|
    decreases |s|
  {
    if s != [] { CountBelowAll(s[..|s|-1], v); }
  }

  lemma {:induction false} CountBelowMonotone(s: seq<nat>, v: nat, w: nat)
    requires v <= w
    ensures CountBelow(s, v) <= CountBelow(s, w)
    decreases |s|
  {
    if s != [] { CountBelowMonotone(s[..|s|-1], v, w); }
  }

  /** The entries from i on are not below v. */
  lemma {:induction false} CountBelowAtMost(s: seq<nat>, v: nat, i: nat)
    requires i <= |s| && forall j | i <= j < |s| :: s[j] >= v
    ensures CountBelow(s, v) <= i
    decreases |s|
  {
    if i < |s| { CountBelowAtMost(s[..|s|-1], v, i); }
  }

  /** The entries before i are below v. */
  lemma {:induction false} CountBelowAtLeast(s: seq<nat>, v: nat, i: nat)
    requires i <= |s| && forall j | 0 <= j < i :: s[j] < v
    ensures CountBelow(s, v) >= i
    decreases |s|
  {
    if i < |s| {
      CountBelowAtLeast(s[..|s|-1], v, i);
    } else {
      CountBelowAll(s, v);
    }
  }

  /** The list names the clusters in order. */
  ghost predicate Grouped(s: seq<nat>) {
    forall i, j | 0 <= i < j < |s| :: s[i] <= s[j]
  }

  /** Position i belongs to the block of its own cluster, when blocks are numbered through cluster by cluster. */
  ghost predicate InOwnBlock(s: seq<nat>, i: nat)
    requires i < |s|
  {
    CountBelow(s, s[i]) <= i < CountBelow(s, s[i] + 1)
  }

  /**
   Numbering servers block by block and looking them up by their place in the list agree on the
   cluster of every server exactly when the list is grouped by cluster.
   */
  lemma BlocksMatchIffGrouped(s: seq<nat>)
    ensures (forall i | 0 <= i < |s| :: InOwnBlock(s, i)) <==> Grouped(s)
  {
    if Grouped(s) {
      forall i | 0 <= i < |s| ensures InOwnBlock(s, i) {
        CountBelowAtMost(s, s[i], i);
        CountBelowAtLeast(s, s[i] + 1, i + 1);
      }
    }
    if forall i | 0 <= i < |s| :: InOwnBlock(s, i) {
      forall i, j | 0 <= i < j < |s| ensures s[i] <= s[j] {
        assert InOwnBlock(s, i) && InOwnBlock(s, j);
        if s[i] > s[j] {
          CountBelowMonotone(s, s[j] + 1, s[i]);
          assert false;
        }
      }
    }
  }

  // ---- building the clusters ----

  /** Numbers the keys by first occurrence, and keeps the first capacity of each. */
  method NumberKinds(disks: seq<Disk>) returns (index: map<nat, nat>, weights: seq<nat>)
    ensures weights == Kinds(disks)
    ensures forall i | 0 <= i < |disks| ::
            KeyOf(disks[i].capacity) in index && index[KeyOf(disks[i].capacity)] == KindIndices(disks)[i]
  {
    index, weights := map[], [];
    for i := 0 to |disks|
      invariant weights == Kinds(disks[..i])
      invariant Numbers(index, Keys(disks[..i]))
    {
      var key := KeyOf(disks[i].capacity);
      assert disks[..i+1][..i] == disks[..i];
      if key !in index {
        NumberOneMore(index, Keys(disks[..i]), key);
        index := index[key := |weights|];
        weights := weights + [disks[i].capacity];
      }
    }
    assert disks[..|disks|] == disks;
    forall i | 0 <= i < |disks| ensures KeyOf(disks[i].capacity) in Keys(disks) {
      KindIndexKey(disks, i);
    }
  }

  ghost predicate Numbers(index: map<nat, nat>, keys: seq<nat>) {
    forall x :: (x in index <==> x in keys) && (x in keys ==> index[x] == IndexOf(keys, x))
  }

  lemma NumberOneMore(index: map<nat, nat>, keys: seq<nat>, key: nat)
    requires Numbers(index, keys) && key !in index
    ensures Numbers(index[key := |keys|], keys + [key])
  {
    forall x | x in keys + [key] ensures index[key := |keys|][x] == IndexOf(keys + [key], x) {
      IndexOfAppend(keys, key, x);
    }
  }

  lemma {:induction false} IndexOfAppend(keys: seq<nat>, key: nat, x: nat)
    requires key !in keys && x in keys + [key]
    ensures IndexOf(keys + [key], x) == if x in keys then IndexOf(keys, x) else |keys|
  {
    if keys != [] && keys[0] != x {
      assert (keys + [key])[1..] == keys[1..] + [key];
      IndexOfAppend(keys[1..], key, x);
    }
  }

  /** The sizes of n clusters. */
  function Sizes(s: seq<nat>, n: nat): (r: seq<nat>)
    ensures |r| == n && forall c | 0 <= c < n :: r[c] == CountOf(s, c)
  {
    seq(n, c requires 0 <= c < n => CountOf(s, c))
  }

  /** Servers in the clusters before c. */
  function ServersBefore(sizes: seq<nat>, c: nat): nat
    requires c <= |sizes|
  {
    if c == 0 then 0 else ServersBefore(sizes, c - 1) + sizes[c-1]
  }

  /** The block of cluster c begins behind the disks of the clusters before it. */
  lemma {:induction false} BlocksCount(s: seq<nat>, n: nat, c: nat)
    requires c <= n
    ensures ServersBefore(Sizes(s, n), c) == CountBelow(s, c)
  {
    if c > 0 {
      BlocksCount(s, n, c - 1);
      CountBelowStep(s, c - 1);
    } else {
      CountBelowAtMost(s, 0, 0);
    }
  }

  /** Puts every disk into the list of its cluster. */
  method FillClusters(disks: seq<Disk>, index: map<nat, nat>, n: nat) returns (clusters: seq<seq<Disk>>)
    requires n == |Kinds(disks)|
    requires forall i | 0 <= i < |disks| ::
             KeyOf(disks[i].capacity) in index && index[KeyOf(disks[i].capacity)] == KindIndices(disks)[i]
    ensures |clusters| == n && forall c | 0 <= c < n :: |clusters[c]| == CountOf(KindIndices(disks), c)
  {
    clusters := seq(n, _ => []);
    ghost var s := KindIndices(disks);
    for i := 0 to |disks|
      invariant |clusters| == n && forall c | 0 <= c < n :: |clusters[c]| == CountOf(s[..i], c)
    {
      var c := index[KeyOf(disks[i].capacity)];
      assert s[..i+1][..i] == s[..i];
      clusters := clusters[c := clusters[c] + [disks[i]]];
    }
    assert s[..|disks|] == s;
  }

  /** Every cluster has a disk. */
  lemma {:induction false} EveryKindOccurs(disks: seq<Disk>, c: nat)
    requires c < |Kinds(disks)|
    ensures CountOf(KindIndices(disks), c) > 0
  {
    var ks, s := Keys(disks), KindIndices(disks);
    KeysListed(disks);
    assert ks[c] in ks;
    var i :| 0 <= i < |disks| && KeyOf(disks[i].capacity) == ks[c];
    KindIndexKey(disks, i);
    assert ks[IndexOf(ks, ks[c])] == ks[c];
    CountOfPresent(s, c, i);
  }

  lemma {:induction false} CountOfPresent(s: seq<nat>, v: nat, i: nat)
    requires i < |s| && s[i] == v
    ensures CountOf(s, v) > 0
    decreases |s|
  {
    if i < |s| - 1 { CountOfPresent(s[..|s|-1], v, i); }
  }
}
