/**
 The tree bucket of CRUSH: a binary tree stored in an array by in-order node numbers. Items are the
 odd numbers; a node of height h is an odd multiple of 2^h.
 */
module TreeBucket {
  import opened Arithmetic
  import opened Powers

  /** t >> h. */
  function Shift(t: nat, h: nat): nat {
    if h == 0 then t else Shift(t, h - 1) / 2
  }

  /** The number of trailing zero bits. */
  function Height(n: nat): nat
    requires n > 0
  {
    if n % 2 == 1 then 0 else 1 + Height(n / 2)
  }

  /** Whether bit h + 1 is set. */
  predicate OnRight(n: nat, h: nat) { Shift(n, h + 1) % 2 == 1 }

  function Parent(n: nat): int
    requires n > 0
  {
    var h := Height(n);
    if OnRight(n, h) then n - Pow2(h) else n + Pow2(h)
  }

  method ComputeHeight(n: nat) returns (h: nat)
    requires n > 0
    ensures h == Height(n)
  {
    h := 0;
    var m := n;
    while m % 2 == 0
      invariant m > 0 && Height(n) == h + Height(m)
      decreases m
    {
      h := h + 1;
      m := m / 2;
    }
  }

  // ---- node numbers ----

  /** The a-th node of height h from the left, (2a + 1) * 2^h. */
  function Node(h: nat, a: nat): (n: nat)
    ensures n > 0
  {
    if h == 0 then 2 * a + 1 else 2 * Node(h - 1, a)
  }

  /** The position of a node among the nodes of its height. */
  function Index(n: nat): nat
    requires n > 0
  {
    if n % 2 == 1 then n / 2 else Index(n / 2)
  }

  /** Every number is the node of one height and one position. */
  lemma {:induction false} NodeOf(h: nat, a: nat)
    ensures Height(Node(h, a)) == h && Index(Node(h, a)) == a
  {
    if h > 0 { NodeOf(h - 1, a); }
  }

  lemma {:induction false} NodeOfNumber(n: nat)
    requires n > 0
    ensures Node(Height(n), Index(n)) == n
  {
    if n % 2 == 0 { NodeOfNumber(n / 2); }
  }

  lemma {:induction false} NodeIsOddMultiple(h: nat, a: nat)
    ensures Node(h, a) == (2 * a + 1) * Pow2(h)
  {
    if h > 0 {
      NodeIsOddMultiple(h - 1, a);
      var p := Pow2(h - 1);
      assert (2 * a + 1) * (2 * p) == 2 * ((2 * a + 1) * p);
    }
  }

  lemma {:induction false} ShiftDouble(t: nat, h: nat)
    ensures Shift(2 * t, h + 1) == Shift(t, h)
  {
    if h > 0 { ShiftDouble(t, h - 1); } else { assert Shift(2 * t, 0) == 2 * t; }
  }

  lemma {:induction false} ShiftNode(h: nat, a: nat)
    ensures Shift(Node(h, a), h + 1) == a
  {
    if h > 0 {
      ShiftNode(h - 1, a);
      ShiftDouble(Node(h - 1, a), h);
    } else {
      assert Shift(2 * a + 1, 0) == 2 * a + 1;
    }
  }

  lemma {:induction false} ChildrenOf(h: nat, a: nat)
    ensures Node(h, 2 * a) + Pow2(h) == Node(h + 1, a) == Node(h, 2 * a + 1) - Pow2(h)
  {
    if h > 0 { ChildrenOf(h - 1, a); }
  }

  /** The parent of a node is the node above it, half way along its row. */
  lemma ParentIsAbove(h: nat, a: nat)
    ensures Parent(Node(h, a)) == Node(h + 1, a / 2)
  {
    NodeOf(h, a);
    ShiftNode(h, a);
    ChildrenOf(h, a / 2);
    if a % 2 == 1 { assert a == 2 * (a / 2) + 1; } else { assert a == 2 * (a / 2); }
  }

  // ---- which items a node covers ----

  /** Item t is below node n. */
  predicate Under(t: nat, n: nat)
    requires n > 0
  {
    Shift(t, Height(n)) == Index(n)
  }

  /** a << h. */
  function Left(a: nat, h: nat): nat
    decreases h
  {
    if h == 0 then a else Left(2 * a, h - 1)
  }

  lemma {:induction false} LeftIsMultiple(a: nat, h: nat)
    ensures Left(a, h) == a * Pow2(h)
    decreases h
  {
    if h > 0 {
      LeftIsMultiple(2 * a, h - 1);
      var p := Pow2(h - 1);
      assert (2 * a) * p == a * (2 * p);
    }
  }

  lemma {:induction false} ShiftRange(t: nat, h: nat, a: nat)
    ensures Shift(t, h) >= a <==> t >= Left(a, h)
  {
    if h > 0 { ShiftRange(t, h - 1, 2 * a); }
  }

  /** Node (h, a) covers the items from a * 2^h up to (a + 1) * 2^h. */
  lemma UnderRange(t: nat, h: nat, a: nat)
    ensures Under(t, Node(h, a)) <==> Left(a, h) <= t < Left(a + 1, h)
  {
    NodeOf(h, a);
    ShiftRange(t, h, a);
    ShiftRange(t, h, a + 1);
  }

  /** The weights of the first i items below node n. */
  function NodeSum(weights: seq<int>, i: nat, n: nat): int
    requires i <= |weights| && n > 0
  {
    if i == 0 then 0 else NodeSum(weights, i - 1, n) + (if Under(i - 1, n) then weights[i-1] else 0)
  }

  /** The weights of the items lo, ..., hi - 1, as far as there are any. */
  function RangeSum(weights: seq<int>, lo: nat, hi: nat): int
    decreases hi
  {
    if hi <= lo then 0
    else RangeSum(weights, lo, hi - 1) + (if hi <= |weights| then weights[hi-1] else 0)
  }

  lemma {:induction false} NodeSumIsRange(weights: seq<int>, i: nat, h: nat, a: nat)
    requires i <= |weights|
    ensures NodeSum(weights, i, Node(h, a)) == RangeSum(weights, Left(a, h), Min(Left(a + 1, h), i))
  {
    if i > 0 {
      NodeSumIsRange(weights, i - 1, h, a);
      UnderRange(i - 1, h, a);
    }
  }

  lemma {:induction false} RangeBeyond(weights: seq<int>, lo: nat, hi: nat)
    ensures RangeSum(weights, lo, hi) == RangeSum(weights, lo, Min(hi, |weights|))
    decreases hi
  {
    if hi > |weights| && hi > lo {
      RangeBeyond(weights, lo, hi - 1);
      if hi - 1 < |weights| { assert false; }
    }
  }

  lemma {:induction false} RangeSplit(weights: seq<int>, lo: nat, mid: nat, hi: nat)
    requires lo <= mid <= hi
    ensures RangeSum(weights, lo, hi) == RangeSum(weights, lo, mid) + RangeSum(weights, mid, hi)
    decreases hi
  {
    if mid < hi { RangeSplit(weights, lo, mid, hi - 1); }
  }

  // ---- the size of the tree ----

  /** One more than the number of bits of t. */
  function Bits(t: nat): nat {
    if t == 0 then 1 else 1 + Bits(t / 2)
  }

  function Depth(size: nat): nat
    requires size > 0
  {
    Bits(size - 1)
  }

  lemma {:induction false} BitsBound(t: nat)
    ensures Bits(t) > 0 && t < Pow2(Bits(t) - 1)
    ensures t > 0 ==> Bits(t) > 1 && Pow2(Bits(t) - 2) <= t
  {
    if t > 0 {
      BitsBound(t / 2);
      if t / 2 == 0 {
        assert Bits(0) == 1 && Pow2(0) == 1;
      }
    }
  }

  /** The stored number of nodes, an 8-bit field, is the real one exactly for up to 64 items. */
  lemma NumNodesFits(size: nat)
    requires size > 0
    ensures Pow2(Depth(size)) % 256 == Pow2(Depth(size)) <==> size <= 64
  {
    var d := Depth(size);
    BitsBound(size - 1);
    assert Pow2(6) == 64 && Pow2(8) == 256 && Pow2(7) == 128;
    if size <= 64 {
      if d > 7 { Pow2Monotone(6, d - 2); }
      Pow2Monotone(d, 7);
    } else {
      if d < 8 { Pow2Monotone(d - 1, 6); }
      Pow2Monotone(8, d);
    }
  }

  /** The ancestors of an item are nodes of the tree. */
  lemma AncestorFits(t: nat, j: nat, depth: nat)
    requires j < depth && t < Pow2(depth - 1)
    ensures Node(j, Shift(t, j)) < Pow2(depth)
  {
    ShiftBound(t, j, depth - 1);
    NodeBound(j, Shift(t, j), depth - 1 - j);
  }

  lemma {:induction false} ShiftBound(t: nat, j: nat, d: nat)
    requires j <= d && t < Pow2(d)
    ensures Shift(t, j) < Pow2(d - j)
  {
    if j > 0 { ShiftBound(t, j - 1, d); }
  }

  lemma {:induction false} NodeBound(h: nat, a: nat, d: nat)
    requires a < Pow2(d)
    ensures Node(h, a) < Pow2(h + d + 1)
  {
    if h > 0 { NodeBound(h - 1, a, d); }
  }

  /** The node in the middle is the root, above every item. */
  lemma RootCoversAll(size: nat, t: nat)
    requires t < size
    ensures Depth(size) > 0 && Pow2(Depth(size)) / 2 == Pow2(Depth(size) - 1) == Node(Depth(size) - 1, 0)
    ensures Under(t, Node(Depth(size) - 1, 0))
  {
    var d := Depth(size) - 1;
    BitsBound(size - 1);
    NodeOf(d, 0);
    RootNode(d);
    ShiftBound(t, d, d);
  }

  lemma {:induction false} RootNode(d: nat)
    ensures Node(d, 0) == Pow2(d)
  {
    if d > 0 { RootNode(d - 1); }
  }

  lemma {:induction false} RootSum(weights: seq<int>, i: nat, root: nat)
    requires i <= |weights| && root > 0 && forall t | 0 <= t < i :: Under(t, root)
    ensures NodeSum(weights, i, root) == RangeSum(weights, 0, i)
  {
    if i > 0 { RootSum(weights, i - 1, root); }
  }

  /** A leaf covers its own item only. */
  lemma {:induction false} LeafSum(weights: seq<int>, i: nat, a: nat)
    requires i <= |weights| && i <= a
    ensures NodeSum(weights, i, Node(0, a)) == 0
  {
    if i > 0 {
      LeafSum(weights, i - 1, a);
      UnderRange(i - 1, 0, a);
    }
  }

  // ---- building ----

  /** Addition in a 32-bit unsigned field. */
  function Add32(x: int, w: int): nat { (x + w) % TWO_TO_THE_32 }

  /** Every node holds the weight of the first i items below it, and of item i below height j. */
  ghost predicate Filled(nodes: seq<nat>, weights: seq<int>, i: nat, j: nat)
    requires i <= |weights|
  {
    forall n | 0 < n < |nodes| :: FilledAt(nodes, weights, i, j, n)
  }

  ghost predicate FilledAt(nodes: seq<nat>, weights: seq<int>, i: nat, j: nat, n: nat)
    requires i <= |weights| && 0 < n < |nodes|
  {
    nodes[n] == Add32(NodeSum(weights, i, n), if i < |weights| && Under(i, n) && Height(n) < j then weights[i] else 0)
  }

  class CrushBucketTree {
    var items: array<int>
    var weight: nat
    var numNodes: nat
    var nodeWeights: array<nat>

    /** Every node holds the 32-bit sum of the weights of the items below it, and the root holds the bucket's weight. */
    ghost predicate Holds(weights: seq<int>)
      reads this, nodeWeights
    {
      && weights != [] && numNodes == Pow2(Depth(|weights|)) == nodeWeights.Length
      && (forall n | 0 < n < numNodes :: nodeWeights[n] == NodeSum(weights, |weights|, n) % TWO_TO_THE_32)
      && weight == RangeSum(weights, 0, |weights|) % TWO_TO_THE_32
    }

    constructor (newItems: seq<int>, weights: seq<int>)
      requires |newItems| == |weights| > 0
      ensures items[..] == newItems && Holds(weights)
      ensures 0 < numNodes / 2 < nodeWeights.Length && nodeWeights[numNodes/2] == weight
    {
      items := new int[|newItems|];
      weight := 0;
      numNodes := 0;
      nodeWeights := new nat[0];
      new;
      var depth := ComputeDepth(|newItems|);
      numNodes := Pow2(depth);
      nodeWeights := new nat[numNodes](_ => 0);
      FillTree(items, nodeWeights, newItems, weights, depth);
      weight := SumWeights(weights);
      RootHoldsTotal(weights);
      assert Holds(weights) by {
        forall n | 0 < n < numNodes ensures nodeWeights[n] == NodeSum(weights, |weights|, n) % TWO_TO_THE_32 {
          assert FilledAt(nodeWeights[..], weights, |weights|, 0, n);
        }
      }
    }
  }

  method ComputeDepth(size: nat) returns (depth: nat)
    requires size > 0
    ensures depth == Depth(size)
  {
    depth := 1;
    var t := size - 1;
    while t != 0
      invariant t >= 0 && Depth(size) == depth + Bits(t) - 1
      decreases t
    {
      t := t / 2;
      depth := depth + 1;
    }
  }

  method SumWeights(weights: seq<int>) returns (weight: nat)
    ensures weight == RangeSum(weights, 0, |weights|) % TWO_TO_THE_32
  {
    weight := 0;
    for i := 0 to |weights|
      invariant weight == RangeSum(weights, 0, i) % TWO_TO_THE_32
    {
      weight := Add32(weight, weights[i]);
    }
  }

  method FillTree(items: array<int>, nodes: array<nat>, newItems: seq<int>, weights: seq<int>, depth: nat)
    requires |newItems| == |weights| == items.Length > 0 && depth == Depth(|weights|)
    requires nodes.Length == Pow2(depth) && forall n | 0 <= n < nodes.Length :: nodes[n] == 0
    modifies items, nodes
    ensures items[..] == newItems && Filled(nodes[..], weights, |weights|, 0)
  {
    forall n | 0 < n < nodes.Length ensures FilledAt(nodes[..], weights, 0, 0, n) { }
    for i := 0 to items.Length
      invariant items[..i] == newItems[..i]
      invariant Filled(nodes[..], weights, i, 0)
    {
      items[i] := newItems[i];
      AddItem(nodes, weights, i, depth);
    }
  }

  /** Adds the weight of item i to its leaf and to all its ancestors. */
  method AddItem(nodes: array<nat>, weights: seq<int>, i: nat, depth: nat)
    requires i < |weights| && depth == Depth(|weights|) && nodes.Length == Pow2(depth)
    requires Filled(nodes[..], weights, i, 0)
    modifies nodes
    ensures Filled(nodes[..], weights, i + 1, 0)
  {
    BitsBound(|weights| - 1);
    AncestorFits(i, 0, depth);
    var node := 2 * (i + 1) - 1;
    StartItem(nodes[..], weights, i);
    nodes[node] := weights[i] % TWO_TO_THE_32;
    var j := 1;
    while j < depth
      invariant 1 <= j <= depth && node == Node(j - 1, Shift(i, j - 1))
      invariant Filled(nodes[..], weights, i, j)
    {
      AncestorFits(i, j, depth);
      ParentIsAbove(j - 1, Shift(i, j - 1));
      node := Parent(node);
      ClimbItem(nodes[..], weights, i, j);
      nodes[node] := Add32(nodes[node], weights[i]);
      j := j + 1;
    }
    FinishItem(nodes[..], weights, i, depth);
  }

  /** The node of height j above item t, and no other of that height. */
  lemma {:induction false} UniqueAncestor(t: nat, j: nat, n: nat)
    requires n > 0
    ensures Under(t, n) && Height(n) == j <==> n == Node(j, Shift(t, j))
  {
    NodeOf(j, Shift(t, j));
    NodeOfNumber(n);
  }

  /** The leaf is written, as nothing is below it yet. */
  lemma StartItem(nodes: seq<nat>, weights: seq<int>, i: nat)
    requires i < |weights| && Filled(nodes, weights, i, 0) && 2 * i + 1 < |nodes|
    ensures Filled(nodes[2*i+1 := weights[i] % TWO_TO_THE_32], weights, i, 1)
  {
    var nodes' := nodes[2*i+1 := weights[i] % TWO_TO_THE_32];
    forall n | 0 < n < |nodes| ensures FilledAt(nodes', weights, i, 1, n) {
      assert FilledAt(nodes, weights, i, 0, n);
      UniqueAncestor(i, 0, n);
      assert Node(0, Shift(i, 0)) == 2 * i + 1;
      if n == 2 * i + 1 { LeafSum(weights, i, i); }
    }
  }

  /** One ancestor gets the weight. */
  lemma {:induction false} ClimbItem(nodes: seq<nat>, weights: seq<int>, i: nat, j: nat)
    requires i < |weights| && Filled(nodes, weights, i, j) && Node(j, Shift(i, j)) < |nodes|
    ensures var node := Node(j, Shift(i, j));
            Filled(nodes[node := Add32(nodes[node], weights[i])], weights, i, j + 1)
  {
    var node := Node(j, Shift(i, j));
    var nodes', next := nodes[node := Add32(nodes[node], weights[i])], j + 1;
    forall n | 0 < n < |nodes| ensures FilledAt(nodes', weights, i, next, n) {
      assert FilledAt(nodes, weights, i, j, n);
      UniqueAncestor(i, j, n);
      if n == node { AddTwice(NodeSum(weights, i, n), weights[i]); }
    }
  }

  lemma AddTwice(x: int, w: int)
    ensures Add32(Add32(x, 0), w) == Add32(x, w)
  {
  }

  /** After the climb every node has been considered. */
  lemma {:induction false} FinishItem(nodes: seq<nat>, weights: seq<int>, i: nat, depth: nat)
    requires i < |weights| && Filled(nodes, weights, i, depth) && |nodes| == Pow2(depth)
    ensures Filled(nodes, weights, i + 1, 0)
  {
    var next := i + 1;
    forall n | 0 < n < |nodes| ensures FilledAt(nodes, weights, next, 0, n) {
      assert FilledAt(nodes, weights, i, depth, n);
      HeightBound(n);
      if Height(n) >= depth { Pow2Monotone(depth, Height(n)); }
    }
  }

  lemma {:induction false} HeightBound(n: nat)
    requires n > 0
    ensures Pow2(Height(n)) <= n
  {
    if n % 2 == 0 { HeightBound(n / 2); }
  }

  // ---- what the tree is for ----

  /** The node (h, a) holds the weights of the items from a * 2^h up to (a + 1) * 2^h. */
  lemma {:induction false} NodeHoldsRange(weights: seq<int>, h: nat, a: nat)
    ensures NodeSum(weights, |weights|, Node(h, a)) == RangeSum(weights, a * Pow2(h), (a + 1) * Pow2(h))
  {
    LeftIsMultiple(a, h);
    LeftIsMultiple(a + 1, h);
    NodeSumIsRange(weights, |weights|, h, a);
    RangeBeyond(weights, Left(a, h), Left(a + 1, h));
  }

  /** An inner node holds the sum of its two children, which stand half its step to the left and to the right. */
  lemma NodeIsSumOfChildren(weights: seq<int>, n: nat)
    requires n > 0 && Height(n) > 0
    ensures var step := Pow2(Height(n) - 1);
            && n > step && Parent(n - step) == n == Parent(n + step)
            && NodeSum(weights, |weights|, n)
               == NodeSum(weights, |weights|, n - step) + NodeSum(weights, |weights|, n + step)
  {
    var h, a := Height(n) - 1, Index(n);
    NodeOfNumber(n);
    ChildrenOf(h, a);
    ParentIsAbove(h, 2 * a);
    ParentIsAbove(h, 2 * a + 1);
    ChildSums(weights, h, a);
  }

  lemma ChildSums(weights: seq<int>, h: nat, a: nat)
    ensures NodeSum(weights, |weights|, Node(h + 1, a))
            == NodeSum(weights, |weights|, Node(h, 2 * a)) + NodeSum(weights, |weights|, Node(h, 2 * a + 1))
  {
    SumIsWholeRange(weights, h, 2 * a);
    SumIsWholeRange(weights, h, 2 * a + 1);
    SumIsWholeRange(weights, h + 1, a);
    LeftMonotone(2 * a, 2 * a + 1, h);
    LeftMonotone(2 * a + 1, 2 * a + 2, h);
    RangeSplit(weights, Left(2 * a, h), Left(2 * a + 1, h), Left(2 * a + 2, h));
  }

  lemma SumIsWholeRange(weights: seq<int>, h: nat, a: nat)
    ensures NodeSum(weights, |weights|, Node(h, a)) == RangeSum(weights, Left(a, h), Left(a + 1, h))
  {
    NodeSumIsRange(weights, |weights|, h, a);
    RangeBeyond(weights, Left(a, h), Left(a + 1, h));
  }

  lemma {:induction false} LeftMonotone(a: nat, b: nat, h: nat)
    requires a <= b
    ensures Left(a, h) <= Left(b, h)
    decreases h
  {
    if h > 0 { LeftMonotone(2 * a, 2 * b, h - 1); }
  }

  /** The node in the middle of the array holds the weight of the whole bucket. */
  lemma {:induction false} RootHoldsTotal(weights: seq<int>)
    requires weights != []
    ensures var root := Pow2(Depth(|weights|)) / 2;
            root > 0 && NodeSum(weights, |weights|, root) == RangeSum(weights, 0, |weights|)
  {
    RootCoversAll(|weights|, 0);
    var root := Node(Depth(|weights|) - 1, 0);
    forall t: nat | t < |weights| ensures Under(t, root) {
      RootCoversAll(|weights|, t);
    }
    RootSum(weights, |weights|, root);
  }
}
