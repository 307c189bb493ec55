/**
 RUSH_T: a weighted binary tree over clusters picks the cluster of an extent, and a prime stride picks
 different servers within it for its replicas.
 */
module RushT {
  import opened Arithmetic
  import opened Sequences
  import opened WichmannHill
  import opened Coprime
  import opened Disks
  import opened Clusters
  import opened Powers
  import Shuffle
  import RushR

  datatype SubCluster = SubCluster(servers: nat, weight: real)

  datatype Child = None | Some(node: Node)

  /** A leaf is one cluster; the last inner node of a row may lack its right child. */
  datatype Node =
    | Leaf(cluster: SubCluster, index: nat, weight: real)
    | Inner(left: Node, right: Child, leftWeight: real, rightWeight: real, index: nat, weight: real, normalized: real)

  function Quotient(x: real, y: real): real
    requires y != 0.0
  {
    x / y
  }

  function ClusterWeight(c: SubCluster): real { Times(c.servers as real, c.weight) }

  function InitLeaf(c: SubCluster, index: nat): Node {
    Leaf(c, index, ClusterWeight(c))
  }

  function RightWeight(right: Child): real { if right.Some? then right.node.weight else 0.0 }

  function InitInner(left: Node, right: Child, index: nat): Node
    requires left.weight + RightWeight(right) != 0.0
  {
    var sum := left.weight + RightWeight(right);
    Inner(left, right, left.weight, RightWeight(right), index, sum, Quotient(left.weight, sum))
  }

  // ---- construction, row by row ----

  ghost predicate Heavy(nodes: seq<Node>) {
    forall i | 0 <= i < |nodes| :: nodes[i].weight > 0.0
  }

  /** The row of parents, numbered from `index` on. */
  function NextRow(nodes: seq<Node>, index: nat): (row: seq<Node>)
    requires Heavy(nodes)
    ensures |row| == (|nodes| + 1) / 2 && Heavy(row)
  {
    if nodes == [] then []
    else if |nodes| == 1 then [InitInner(nodes[0], None, index)]
    else [InitInner(nodes[0], Some(nodes[1]), index)] + NextRow(nodes[2..], index + 1)
  }

  /** The root above a row, when `index` numbers are in use. */
  function Root(nodes: seq<Node>, index: nat): Node
    requires nodes != [] && Heavy(nodes)
    decreases |nodes|
  {
    if |nodes| == 1 then nodes[0] else Root(NextRow(nodes, index), index + (|nodes| + 1) / 2)
  }

  function LeafRow(clusters: seq<SubCluster>): (row: seq<Node>)
    ensures |row| == |clusters| && forall i | 0 <= i < |row| :: row[i] == InitLeaf(clusters[i], i)
  {
    seq(|clusters|, i requires 0 <= i < |clusters| => InitLeaf(clusters[i], i))
  }

  ghost predicate Usable(clusters: seq<SubCluster>) {
    clusters != [] && forall i | 0 <= i < |clusters| :: clusters[i].servers > 0 && clusters[i].weight > 0.0
  }

  lemma LeafRowHeavy(clusters: seq<SubCluster>)
    requires Usable(clusters)
    ensures Heavy(LeafRow(clusters))
  {
    forall i | 0 <= i < |clusters| ensures LeafRow(clusters)[i].weight > 0.0 {
      TimesPositive(clusters[i].servers as real, clusters[i].weight);
    }
  }

  lemma TimesPositive(x: real, y: real)
    requires x > 0.0 && y > 0.0
    ensures Times(x, y) > 0.0
  {
  }

  function Tree(clusters: seq<SubCluster>): Node
    requires Usable(clusters)
  {
    LeafRowHeavy(clusters);
    Root(LeafRow(clusters), |clusters|)
  }

  method ConstructTree(clusters: seq<SubCluster>) returns (root: Node)
    requires Usable(clusters)
    ensures root == Tree(clusters)
  {
    LeafRowHeavy(clusters);
    var nodeIndex: nat := 0;
    var newNodes: seq<Node> := [];
    for i := 0 to |clusters|
      invariant nodeIndex == i && newNodes == LeafRow(clusters)[..i]
    {
      newNodes := newNodes + [InitLeaf(clusters[i], nodeIndex)];
      nodeIndex := nodeIndex + 1;
    }
    assert newNodes == LeafRow(clusters);
    while |newNodes| > 1
      invariant newNodes != [] && Heavy(newNodes) && Root(newNodes, nodeIndex) == Tree(clusters)
      decreases |newNodes|
    {
      var next := BuildRow(newNodes, nodeIndex);
      nodeIndex := nodeIndex + |next|;
      newNodes := next;
    }
    root := newNodes[0];
  }

  method BuildRow(oldNodes: seq<Node>, index: nat) returns (row: seq<Node>)
    requires Heavy(oldNodes)
    ensures row == NextRow(oldNodes, index)
  {
    row := [];
    ghost var rest := oldNodes;
    var nodeIndex := index;
    var i := 0;
    while i < |oldNodes|
      invariant 0 <= i && rest == (if i < |oldNodes| then oldNodes[i..] else []) && Heavy(rest)
      invariant row + NextRow(rest, nodeIndex) == NextRow(oldNodes, index)
    {
      var right := if i + 1 < |oldNodes| then Some(oldNodes[i+1]) else None;
      NextRowStep(rest, nodeIndex, row, oldNodes[i], right);
      WithoutTwo(oldNodes, i);
      row := row + [InitInner(oldNodes[i], right, nodeIndex)];
      rest := if i + 2 < |oldNodes| then oldNodes[i+2..] else [];
      nodeIndex := nodeIndex + 1;
      i := i + 2;
    }
  }

  lemma WithoutTwo(nodes: seq<Node>, i: nat)
    requires i < |nodes|
    ensures (if |nodes[i..]| > 1 then nodes[i..][2..] else []) == (if i + 2 < |nodes| then nodes[i+2..] else [])
  {
  }

  lemma NextRowStep(rest: seq<Node>, index: nat, row: seq<Node>, left: Node, right: Child)
    requires Heavy(rest) && rest != [] && left == rest[0] && right == if |rest| > 1 then Some(rest[1]) else None
    ensures left.weight + RightWeight(right) != 0.0
    ensures var tail := if |rest| > 1 then rest[2..] else [];
            Heavy(tail) && row + NextRow(rest, index)
                == (row + [InitInner(left, right, index)]) + NextRow(tail, index + 1)
  {
  }

  // ---- what the tree is ----

  function Leaves(node: Node): seq<Node> {
    if node.Leaf? then [node]
    else Leaves(node.left) + (if node.right.Some? then Leaves(node.right.node) else [])
  }

  function LeavesOf(nodes: seq<Node>): seq<Node> {
    if nodes == [] then [] else Leaves(nodes[0]) + LeavesOf(nodes[1..])
  }

  /** The row of parents has the same leaves, in the same order. */
  lemma NextRowLeaves(nodes: seq<Node>, index: nat)
    requires Heavy(nodes)
    ensures LeavesOf(NextRow(nodes, index)) == LeavesOf(nodes)
  {
    if |nodes| == 1 {
      assert nodes[1..] == [] && NextRow(nodes, index)[1..] == [];
    } else if |nodes| > 1 {
      NextRowLeaves(nodes[2..], index + 1);
      assert nodes[1..][1..] == nodes[2..];
      assert NextRow(nodes, index)[1..] == NextRow(nodes[2..], index + 1);
    }
  }

  lemma {:induction false} RootLeaves(nodes: seq<Node>, index: nat)
    requires nodes != [] && Heavy(nodes)
    ensures Leaves(Root(nodes, index)) == LeavesOf(nodes)
    decreases |nodes|
  {
    if |nodes| == 1 {
      assert nodes[1..] == [];
    } else {
      RootLeaves(NextRow(nodes, index), index + (|nodes| + 1) / 2);
      NextRowLeaves(nodes, index);
    }
  }

  lemma {:induction false} LeavesOfLeaves(nodes: seq<Node>)
    requires forall i | 0 <= i < |nodes| :: nodes[i].Leaf?
    ensures LeavesOf(nodes) == nodes
  {
    if nodes != [] { LeavesOfLeaves(nodes[1..]); }
  }

  /** Every inner node weighs what its children weigh, and splits accordingly. */
  ghost predicate Balanced(node: Node) {
    && node.weight > 0.0
    && (node.Inner? ==>
          && Balanced(node.left) && node.leftWeight == node.left.weight
          && (node.right.Some? ==> Balanced(node.right.node))
          && node.rightWeight == RightWeight(node.right)
          && node.weight == node.leftWeight + node.rightWeight
          && Times(node.normalized, node.weight) == node.leftWeight)
  }

  ghost predicate AllBalanced(nodes: seq<Node>) {
    forall i | 0 <= i < |nodes| :: Balanced(nodes[i])
  }

  lemma {:induction false} InnerBalanced(left: Node, right: Child, index: nat)
    requires Balanced(left) && (right.Some? ==> Balanced(right.node))
    ensures left.weight + RightWeight(right) > 0.0 && Balanced(InitInner(left, right, index))
  {
    QuotientTimes(left.weight, left.weight + RightWeight(right));
  }

  lemma QuotientTimes(x: real, y: real)
    requires y != 0.0
    ensures Times(Quotient(x, y), y) == x
  {
  }

  lemma {:induction false} NextRowBalanced(nodes: seq<Node>, index: nat)
    requires Heavy(nodes) && AllBalanced(nodes)
    ensures AllBalanced(NextRow(nodes, index))
  {
    if |nodes| == 1 {
      InnerBalanced(nodes[0], None, index);
    } else if |nodes| > 1 {
      InnerBalanced(nodes[0], Some(nodes[1]), index);
      NextRowBalanced(nodes[2..], index + 1);
    }
  }

  lemma {:induction false} RootBalanced(nodes: seq<Node>, index: nat)
    requires nodes != [] && Heavy(nodes) && AllBalanced(nodes)
    ensures Balanced(Root(nodes, index))
    decreases |nodes|
  {
    if |nodes| > 1 {
      NextRowBalanced(nodes, index);
      RootBalanced(NextRow(nodes, index), index + (|nodes| + 1) / 2);
    }
  }

  /** The leaves of the tree are the clusters in order, and all its weights are sums of leaf weights. */
  lemma TreeIsSound(clusters: seq<SubCluster>)
    requires Usable(clusters)
    ensures Leaves(Tree(clusters)) == LeafRow(clusters) && Balanced(Tree(clusters))
    ensures Tree(clusters).weight == TotalWeight(LeafRow(clusters))
  {
    LeafRowHeavy(clusters);
    var row := LeafRow(clusters);
    assert AllBalanced(row);
    RootLeaves(row, |clusters|);
    LeavesOfLeaves(row);
    RootBalanced(row, |clusters|);
    WeightIsSum(Tree(clusters));
  }

  // ---- the numbers of the nodes ----

  /** How many inner nodes of a tree hash with the number x. */
  function Numbered(node: Node, x: nat): nat {
    if node.Leaf? then 0
    else
      (if node.index == x then 1 else 0) + Numbered(node.left, x)
        + (if node.right.Some? then Numbered(node.right.node, x) else 0)
  }

  function NumberedInRow(nodes: seq<Node>, x: nat): nat {
    if nodes == [] then 0 else Numbered(nodes[0], x) + NumberedInRow(nodes[1..], x)
  }

  lemma {:induction false} NextRowNumbered(nodes: seq<Node>, index: nat, x: nat)
    requires Heavy(nodes)
    ensures NumberedInRow(NextRow(nodes, index), x)
         == NumberedInRow(nodes, x) + (if index <= x < index + (|nodes| + 1) / 2 then 1 else 0)
  {
    var row := NextRow(nodes, index);
    if |nodes| == 1 {
      assert row[1..] == [] && nodes[1..] == [];
    } else if nodes != [] {
      NextRowNumbered(nodes[2..], index + 1, x);
      assert nodes[1..][1..] == nodes[2..];
      assert row[1..] == NextRow(nodes[2..], index + 1);
    }
  }

  /** Building upwards from a row uses the numbers from `index` on, each once. */
  lemma {:induction false} RootNumbered(nodes: seq<Node>, index: nat, x: nat)
    requires nodes != [] && Heavy(nodes)
    ensures NumberedInRow(nodes, x) <= Numbered(Root(nodes, index), x) <= NumberedInRow(nodes, x) + 1
    ensures x < index ==> Numbered(Root(nodes, index), x) == NumberedInRow(nodes, x)
    decreases |nodes|
  {
    if |nodes| == 1 {
      assert nodes[1..] == [];
    } else {
      NextRowNumbered(nodes, index, x);
      RootNumbered(NextRow(nodes, index), index + (|nodes| + 1) / 2, x);
    }
  }

  lemma {:induction false} LeavesHaveNone(nodes: seq<Node>, x: nat)
    requires forall i | 0 <= i < |nodes| :: nodes[i].Leaf?
    ensures NumberedInRow(nodes, x) == 0
  {
    if nodes != [] { LeavesHaveNone(nodes[1..], x); }
  }

  /** No two nodes have the same number: the leaves have those of their clusters, the inner nodes later ones. */
  lemma NodesNumbered(clusters: seq<SubCluster>, x: nat)
    requires Usable(clusters)
    ensures Numbered(Tree(clusters), x) <= if x < |clusters| then 0 else 1
    ensures Leaves(Tree(clusters)) == LeafRow(clusters) && (x < |clusters| ==> LeafRow(clusters)[x].index == x)
  {
    LeafRowHeavy(clusters);
    TreeIsSound(clusters);
    RootNumbered(LeafRow(clusters), |clusters|, x);
    LeavesHaveNone(LeafRow(clusters), x);
  }

  function TotalWeight(nodes: seq<Node>): real {
    if nodes == [] then 0.0 else nodes[0].weight + TotalWeight(nodes[1..])
  }

  lemma {:induction false} TotalWeightAppend(a: seq<Node>, b: seq<Node>)
    ensures TotalWeight(a + b) == TotalWeight(a) + TotalWeight(b)
  {
    if a == [] {
      assert a + b == b;
    } else {
      assert (a + b)[1..] == a[1..] + b;
      TotalWeightAppend(a[1..], b);
    }
  }

  lemma {:induction false} WeightIsSum(node: Node)
    requires Balanced(node)
    ensures node.weight == TotalWeight(Leaves(node))
  {
    if node.Inner? {
      WeightIsSum(node.left);
      if node.right.Some? {
        WeightIsSum(node.right.node);
        TotalWeightAppend(Leaves(node.left), Leaves(node.right.node));
      } else {
        assert Leaves(node) == Leaves(node.left);
      }
    } else {
      assert Leaves(node)[1..] == [];
    }
  }

  // ---- the descent ----

  /** The leaf that the hashes of the nodes lead to; None where a missing child is chosen. */
  function Descend(node: Node, hash: nat -> real): Child {
    if node.Leaf? then Some(node)
    else if hash(node.index) < node.normalized then Descend(node.left, hash)
    else if node.right.Some? then Descend(node.right.node, hash)
    else None
  }

  /** At every inner node the descent turns left exactly for hashes below the left part of its weight. */
  lemma TurnsByWeight(node: Node, hash: nat -> real)
    requires Balanced(node) && node.Inner?
    ensures Descend(node, hash)
         == if hash(node.index) * node.weight < node.left.weight then Descend(node.left, hash)
            else if node.right.Some? then Descend(node.right.node, hash) else None
  {
    var u := hash(node.index);
    UnscaleOrder(node.normalized, u, node.weight);
  }

  method GetSubCluster(root: Node, hash: nat -> real) returns (leaf: Child)
    ensures leaf == Descend(root, hash)
  {
    var node := root;
    while !node.Leaf?
      invariant Descend(node, hash) == Descend(root, hash)
      decreases node
    {
      if hash(node.index) < node.normalized {
        node := node.left;
      } else if node.right.Some? {
        node := node.right.node;
      } else {
        return None;
      }
    }
    leaf := Some(node);
  }

  /** Where the descent ends, it ends at a leaf of the tree; and it does for hashes below one. */
  lemma {:induction false} DescendFindsLeaf(node: Node, hash: nat -> real)
    requires Balanced(node)
    ensures (forall i: nat :: hash(i) < 1.0) ==> Descend(node, hash).Some?
    ensures Descend(node, hash).Some? ==>
              Descend(node, hash).node in Leaves(node) && Descend(node, hash).node.Leaf?
  {
    if node.Inner? {
      if hash(node.index) < node.normalized {
        DescendFindsLeaf(node.left, hash);
      } else if node.right.Some? {
        DescendFindsLeaf(node.right.node, hash);
      } else {
        OnlyChildCertain(node);
      }
    }
  }

  /** A node with one child always sends there, unless the hash is not below one. */
  lemma {:induction false} OnlyChildCertain(node: Node)
    requires Balanced(node) && node.Inner? && node.right.None?
    ensures node.normalized == 1.0
  {
    TimesCancel(node.normalized, node.weight);
  }

  lemma TimesCancel(x: real, y: real)
    requires y > 0.0 && Times(x, y) == y
    ensures x == 1.0
  {
    assert (x - 1.0) * y == 0.0;
  }

  // ---- hashes of exactly one ----

  /** The hash is a quotient of 64-bit numbers, and can be exactly one. */
  ghost predicate InUnit(hash: nat -> real) {
    forall i: nat :: 0.0 <= hash(i) <= 1.0
  }

  function AllOnes(): nat -> real { (i: nat) => 1.0 }

  ghost predicate PowerOfTwo(n: nat) {
    exists h: nat :: n == Pow2(h)
  }

  lemma PowerOfTwoDoubles(n: nat)
    ensures PowerOfTwo(2 * n) <==> PowerOfTwo(n) || 2 * n == 1
  {
    if h: nat :| n == Pow2(h) { assert 2 * n == Pow2(h + 1); }
    if h: nat :| 2 * n == Pow2(h) {
      if h > 0 { assert n == Pow2(h - 1); }
    }
  }

  lemma OddPower(n: nat)
    requires PowerOfTwo(n) && n % 2 == 1
    ensures n == 1
  {
    var h: nat :| n == Pow2(h);
    if h > 0 { EvenPower(h); }
  }

  lemma {:induction false} EvenPower(h: nat)
    requires h > 0
    ensures Pow2(h) % 2 == 0
  {
    ModMultiple(Pow2(h), 2, Pow2(h - 1));
  }

  /** No inner node lacks a child. */
  ghost predicate Complete(node: Node) {
    node.Inner? ==> node.right.Some? && Complete(node.left) && Complete(node.right.node)
  }

  ghost predicate AllComplete(nodes: seq<Node>) {
    forall i | 0 <= i < |nodes| :: Complete(nodes[i])
  }

  lemma {:induction false} CompleteFindsLeaf(node: Node, hash: nat -> real)
    requires Complete(node)
    ensures Descend(node, hash).Some?
  {
    if node.Inner? {
      CompleteFindsLeaf(node.left, hash);
      CompleteFindsLeaf(node.right.node, hash);
    }
  }

  lemma {:induction false} NextRowComplete(nodes: seq<Node>, index: nat)
    requires Heavy(nodes) && AllComplete(nodes) && |nodes| % 2 == 0
    ensures AllComplete(NextRow(nodes, index))
  {
    if nodes != [] { NextRowComplete(nodes[2..], index + 1); }
  }

  lemma {:induction false} RootComplete(nodes: seq<Node>, index: nat)
    requires nodes != [] && Heavy(nodes) && AllComplete(nodes) && PowerOfTwo(|nodes|)
    ensures Complete(Root(nodes, index))
    decreases |nodes|
  {
    if |nodes| > 1 {
      var h := |nodes| / 2;
      if |nodes| % 2 == 1 { OddPower(|nodes|); }
      assert |nodes| == 2 * h;
      PowerOfTwoDoubles(h);
      NextRowComplete(nodes, index);
      RootComplete(NextRow(nodes, index), index + (|nodes| + 1) / 2);
    }
  }

  /** Hashes of one lead to the last node of every row; they get stuck above a row of odd length. */
  lemma {:induction false} OnesThroughRow(nodes: seq<Node>, index: nat)
    requires nodes != [] && Heavy(nodes) && AllBalanced(nodes)
    ensures var row := NextRow(nodes, index);
            Descend(row[|row|-1], AllOnes()).Some? ==>
              |nodes| % 2 == 0 && Descend(nodes[|nodes|-1], AllOnes()).Some?
  {
    if |nodes| == 1 {
      OnesAtParent(nodes[0], None, index);
    } else if |nodes| == 2 {
      OnesAtParent(nodes[0], Some(nodes[1]), index);
      RowOfTwo(nodes, index);
    } else {
      assert nodes[2..][|nodes|-3] == nodes[|nodes|-1];
      OnesThroughRow(nodes[2..], index + 1);
      LastOfRow(nodes, index);
    }
  }

  lemma {:induction false} RowOfTwo(nodes: seq<Node>, index: nat)
    requires Heavy(nodes) && |nodes| == 2
    ensures NextRow(nodes, index) == [InitInner(nodes[0], Some(nodes[1]), index)]
  {
  }

  lemma LastOfRow(nodes: seq<Node>, index: nat)
    requires Heavy(nodes) && |nodes| > 2
    ensures var row, rest := NextRow(nodes, index), NextRow(nodes[2..], index + 1);
            row[|row|-1] == rest[|rest|-1]
  {
  }

  lemma {:induction false} OnesAtParent(left: Node, right: Child, index: nat)
    requires Balanced(left) && (right.Some? ==> Balanced(right.node))
    ensures left.weight + RightWeight(right) != 0.0
    ensures Descend(InitInner(left, right, index), AllOnes()).Some? ==>
              right.Some? && Descend(right.node, AllOnes()).Some?
  {
    InnerBalanced(left, right, index);
    if right.Some? {
      AtMostOne(InitInner(left, right, index));
    } else {
      OnlyChildCertain(InitInner(left, right, index));
    }
  }

  lemma {:induction false} AtMostOne(node: Node)
    requires Balanced(node) && node.Inner? && node.right.Some?
    ensures node.normalized <= 1.0
  {
    if node.normalized > 1.0 {
      PositiveProduct(node.normalized - 1.0, node.weight);
      assert (node.normalized - 1.0) * node.weight == node.normalized * node.weight - node.weight;
    }
  }

  lemma {:induction false} OnesThroughTree(nodes: seq<Node>, index: nat)
    requires nodes != [] && Heavy(nodes) && AllBalanced(nodes)
    requires Descend(Root(nodes, index), AllOnes()).Some?
    ensures PowerOfTwo(|nodes|) && Descend(nodes[|nodes|-1], AllOnes()).Some?
    decreases |nodes|
  {
    if |nodes| == 1 {
      assert |nodes| == Pow2(0);
    } else {
      var row, h := NextRow(nodes, index), |nodes| / 2;
      NextRowBalanced(nodes, index);
      OnesThroughTree(row, index + (|nodes| + 1) / 2);
      OnesThroughRow(nodes, index);
      assert |nodes| == 2 * h && |row| == h;
      PowerOfTwoDoubles(h);
    }
  }

  /**
   The descent finds a cluster for all hashes up to and including one exactly when the number of clusters is
   a power of two.
   */
  lemma AlwaysFindsCluster(clusters: seq<SubCluster>)
    requires Usable(clusters)
    ensures (forall hash | InUnit(hash) :: Descend(Tree(clusters), hash).Some?) <==> PowerOfTwo(|clusters|)
  {
    LeafRowHeavy(clusters);
    var row := LeafRow(clusters);
    if PowerOfTwo(|clusters|) {
      RootComplete(row, |clusters|);
      forall hash | InUnit(hash) ensures Descend(Tree(clusters), hash).Some? {
        CompleteFindsLeaf(Tree(clusters), hash);
      }
    } else if Descend(Tree(clusters), AllOnes()).Some? {
      assert AllBalanced(row);
      OnesThroughTree(row, |clusters|);
    } else {
      assert InUnit(AllOnes());
    }
  }

  /** Among three clusters hashes of one find none. */
  lemma ThreeClustersMiss(clusters: seq<SubCluster>)
    requires Usable(clusters) && |clusters| == 3
    ensures Descend(Tree(clusters), AllOnes()) == None
  {
    LeafRowHeavy(clusters);
    assert AllBalanced(LeafRow(clusters));
    if Descend(Tree(clusters), AllOnes()).Some? {
      OnesThroughTree(LeafRow(clusters), 3);
      OddPower(3);
    }
  }

  // ---- the share of every cluster ----

  /** The probability of reaching the leaf with number i, when the hashes are uniform and independent. */
  function Chance(node: Node, i: nat): real {
    if node.Leaf? then (if node.index == i then 1.0 else 0.0)
    else Mix(node.normalized, Chance(node.left, i), if node.right.Some? then Chance(node.right.node, i) else 0.0)
  }

  /** The weight of the leaves with number i. */
  function WeightOf(nodes: seq<Node>, i: nat): real {
    if nodes == [] then 0.0 else (if nodes[0].index == i then nodes[0].weight else 0.0) + WeightOf(nodes[1..], i)
  }

  lemma {:induction false} WeightOfAppend(a: seq<Node>, b: seq<Node>, i: nat)
    ensures WeightOf(a + b, i) == WeightOf(a, i) + WeightOf(b, i)
  {
    if a == [] {
      assert a + b == b;
    } else {
      assert (a + b)[1..] == a[1..] + b;
      WeightOfAppend(a[1..], b, i);
    }
  }

  lemma {:induction false} ChanceIsWeight(node: Node, i: nat)
    requires Balanced(node)
    ensures Times(Chance(node, i), node.weight) == WeightOf(Leaves(node), i)
  {
    if node.Leaf? {
      assert Leaves(node)[1..] == [];
    } else {
      ChanceIsWeight(node.left, i);
      var right := if node.right.Some? then Chance(node.right.node, i) else 0.0;
      if node.right.Some? {
        ChanceIsWeight(node.right.node, i);
        WeightOfAppend(Leaves(node.left), Leaves(node.right.node), i);
      } else {
        assert Leaves(node) == Leaves(node.left);
      }
      MixWeights(node.normalized, Chance(node.left, i), right, node.weight, node.leftWeight, node.rightWeight);
      ZeroTimes(node.rightWeight);
    }
  }

  lemma MixWeights(p: real, x: real, y: real, w: real, lw: real, rw: real)
    requires w == lw + rw && Times(p, w) == lw
    ensures Times(Mix(p, x, y), w) == Times(x, lw) + Times(y, rw)
  {
    assert (p * x) * w == x * (p * w);
    assert ((1.0 - p) * y) * w == y * (w - p * w);
  }

  lemma {:induction false} WeightOfNumbered(nodes: seq<Node>, from: nat, i: nat)
    requires forall k | 0 <= k < |nodes| :: nodes[k].index == from + k
    ensures WeightOf(nodes, i) == if from <= i < from + |nodes| then nodes[i-from].weight else 0.0
  {
    if nodes != [] { WeightOfNumbered(nodes[1..], from + 1, i); }
  }

  /** Every cluster is reached with the probability of its share of the total weight. */
  lemma ClusterShare(clusters: seq<SubCluster>, i: nat)
    requires Usable(clusters) && i < |clusters|
    ensures Times(Chance(Tree(clusters), i), TotalWeight(LeafRow(clusters))) == ClusterWeight(clusters[i])
  {
    TreeIsSound(clusters);
    ChanceIsWeight(Tree(clusters), i);
    WeightOfNumbered(LeafRow(clusters), 0, i);
  }

  // ---- servers within a cluster ----

  function Servers(clusters: seq<SubCluster>): (sizes: seq<nat>)
    ensures |sizes| == |clusters| && forall i | 0 <= i < |sizes| :: sizes[i] == clusters[i].servers
  {
    seq(|clusters|, i requires 0 <= i < |clusters| => clusters[i].servers)
  }

  method CumulativeServerCounts(clusters: seq<SubCluster>) returns (counts: seq<nat>)
    ensures |counts| == |clusters| && forall i | 0 <= i < |counts| :: counts[i] == ServersBefore(Servers(clusters), i)
  {
    counts := [];
    var total := 0;
    for i := 0 to |clusters|
      invariant |counts| == i && total == ServersBefore(Servers(clusters), i)
      invariant forall j | 0 <= j < i :: counts[j] == ServersBefore(Servers(clusters), j)
    {
      counts := counts + [total];
      total := total + clusters[i].servers;
    }
  }

  ghost predicate PrimeTable(primes: seq<nat>) {
    && (forall i | 0 <= i < |primes| :: IsPrime(primes[i]))
    && forall i, j | 0 <= i < j < |primes| :: primes[i] < primes[j]
  }

  /** The size of the largest of the first n clusters. */
  function Largest(clusters: seq<SubCluster>, n: nat): (m: nat)
    requires n <= |clusters|
    ensures forall i | 0 <= i < n :: clusters[i].servers <= m
  {
    if n == 0 then 0
    else
      var m := Largest(clusters, n - 1);
      if m < clusters[n-1].servers then clusters[n-1].servers else m
  }

  /** The table has a prime above m. */
  ghost predicate Reaches(primes: seq<nat>, m: nat) {
    primes != [] && primes[|primes|-1] > m
  }

  /** The first prime of the table that is larger than every cluster. */
  method LowestPrimeIndex(primes: seq<nat>, clusters: seq<SubCluster>) returns (lowest: nat)
    requires Reaches(primes, Largest(clusters, |clusters|))
    ensures lowest < |primes| && primes[lowest] > Largest(clusters, |clusters|)
    ensures forall j | 0 <= j < lowest :: primes[j] <= Largest(clusters, |clusters|)
  {
    var largest := 0;
    for i := 0 to |clusters|
      invariant largest == Largest(clusters, i)
    {
      if largest < clusters[i].servers { largest := clusters[i].servers; }
    }
    lowest := 0;
    while primes[lowest] <= largest
      invariant lowest < |primes| && forall j | 0 <= j < lowest :: primes[j] <= largest
      decreases |primes| - lowest
    {
      assert lowest != |primes| - 1;
      lowest := lowest + 1;
    }
  }

  /** Rounds half up; the hashes are not negative. */
  function Round(x: real): int { (x + 0.5).Floor }

  /** Which prime of the table the second hash picks. */
  function PrimeIndex(u: real, lowest: nat, size: nat): (i: nat)
    requires 0.0 <= u <= 1.0 && lowest < size
    ensures lowest <= i < size && IsNearest(i - lowest, Times(u, (size - lowest - 1) as real))
  {
    RoundInRange(u, size - lowest - 1);
    lowest + Round(Times(u, (size - lowest - 1) as real))
  }

  /** The whole number nearest to x, the greater one half way between two. */
  predicate IsNearest(i: int, x: real) { i as real - 0.5 <= x < i as real + 0.5 }

  lemma NearestIsUnique(i: int, j: int, x: real)
    requires IsNearest(i, x) && IsNearest(j, x)
    ensures i == j
  {
  }

  lemma RoundInRange(u: real, n: nat)
    requires 0.0 <= u <= 1.0
    ensures 0 <= Round(Times(u, n as real)) <= n
  {
    TimesInRange(u, n as real);
  }

  lemma TimesInRange(u: real, n: real)
    requires 0.0 <= u <= 1.0 && 0.0 <= n
    ensures 0.0 <= Times(u, n) <= n
  {
    assert u * n >= 0.0;
    assert (1.0 - u) * n >= 0.0 by { NonNegative(1.0 - u, n); }
    assert (1.0 - u) * n == n - u * n;
  }

  /** Where the replicas of an extent start within a cluster. */
  function StartOf(key: int, leaf: Node, hash: nat -> real): int {
    key + Shuffle.Truncate(Times(hash(leaf.index), 40031.0))
  }

  function StrideOf(leaf: Node, second: nat -> real, primes: seq<nat>, lowest: nat): nat
    requires lowest < |primes| && 0.0 <= second(leaf.index) <= 1.0
  {
    primes[PrimeIndex(second(leaf.index), lowest, |primes|)]
  }

  /** The place of one replica within its cluster. */
  function PlaceOf(key: int, replica: nat, leaf: Node, hash: nat -> real, second: nat -> real, primes: seq<nat>,
                   lowest: nat): int
    requires leaf.Leaf? && leaf.cluster.servers > 0
    requires lowest < |primes| && 0.0 <= second(leaf.index) <= 1.0
  {
    TruncMod(StartOf(key, leaf, hash) + replica * StrideOf(leaf, second, primes, lowest), leaf.cluster.servers)
  }

  /**
   The replicas of an extent are on different servers, as long as there are no more of them than the
   cluster has servers: the stride is a prime larger than the cluster. They are within the cluster
   exactly when the sum before the remainder is not negative, or a multiple of the cluster's size.
   */
  lemma ReplicasDiffer(key: int, i: nat, j: nat, leaf: Node, hash: nat -> real, second: nat -> real,
                       primes: seq<nat>, lowest: nat)
    requires PrimeTable(primes) && lowest < |primes| && leaf.Leaf? && 0 < leaf.cluster.servers < primes[lowest]
    requires 0.0 <= second(leaf.index) <= 1.0 && i < j < leaf.cluster.servers
    ensures PlaceOf(key, i, leaf, hash, second, primes, lowest) != PlaceOf(key, j, leaf, hash, second, primes, lowest)
  {
    var stride := StrideOf(leaf, second, primes, lowest);
    StrideIsPrime(leaf, second, primes, lowest);
    StridesDiffer(StartOf(key, leaf, hash), stride, leaf.cluster.servers, i, j);
  }

  lemma StrideIsPrime(leaf: Node, second: nat -> real, primes: seq<nat>, lowest: nat)
    requires PrimeTable(primes) && lowest < |primes| && 0.0 <= second(leaf.index) <= 1.0
    ensures var stride := StrideOf(leaf, second, primes, lowest);
            IsPrime(stride) && stride >= primes[lowest]
  {
    var p := PrimeIndex(second(leaf.index), lowest, |primes|);
    assert IsPrime(primes[p]);
    assert lowest < p ==> primes[lowest] < primes[p];
  }

  lemma PlaceInCluster(key: int, replica: nat, leaf: Node, hash: nat -> real, second: nat -> real,
                       primes: seq<nat>, lowest: nat)
    requires leaf.Leaf? && leaf.cluster.servers > 0 && lowest < |primes| && 0.0 <= second(leaf.index) <= 1.0
    ensures var sum := StartOf(key, leaf, hash) + replica * StrideOf(leaf, second, primes, lowest);
            (0 <= PlaceOf(key, replica, leaf, hash, second, primes, lowest) < leaf.cluster.servers)
            <==> (sum >= 0 || Divides(leaf.cluster.servers, sum))
    ensures key >= 0 && hash(leaf.index) >= 0.0 ==>
              0 <= PlaceOf(key, replica, leaf, hash, second, primes, lowest) < leaf.cluster.servers
  {
    var sum := StartOf(key, leaf, hash) + replica * StrideOf(leaf, second, primes, lowest);
    TruncInRange(sum, leaf.cluster.servers);
    NatProduct(replica, StrideOf(leaf, second, primes, lowest));
    if hash(leaf.index) >= 0.0 { NonNegative(hash(leaf.index), 40031.0); }
  }

  /** r is what C leaves of a over b: it has the sign of a. */
  predicate IsRemainder(r: int, a: int, b: nat)
    requires b > 0
  {
    r < b && -r < b && (a - r) % b == 0 && (a >= 0 ==> r >= 0) && (a <= 0 ==> r <= 0)
  }

  lemma TruncModLeaves(a: int, b: nat)
    requires b > 0
    ensures IsRemainder(TruncMod(a, b), a, b)
  {
    if a >= 0 {
      ModMultiple(a - TruncMod(a, b), b, a / b);
    } else {
      ModMultiple(a - TruncMod(a, b), b, -((-a) / b));
    }
  }

  lemma TruncModIsRemainder(a: int, b: nat, r: int)
    requires b > 0
    ensures IsRemainder(r, a, b) <==> r == TruncMod(a, b)
  {
    TruncModLeaves(a, b);
    if IsRemainder(r, a, b) && r != TruncMod(a, b) {
      MultiplesApart(a - r, a - TruncMod(a, b), b);
    }
  }

  lemma MultiplesApart(x: int, y: int, b: nat)
    requires b > 0 && x % b == 0 && y % b == 0 && x != y
    ensures x - y >= b || y - x >= b
  {
    var p, q := x / b, y / b;
    assert x == p * b && y == q * b;
    if p > q { MulMonotone(q + 1, p, b); } else { MulMonotone(p + 1, q, b); }
  }

  /**
   The place of a replica is the remainder, over the number of servers, of the key, the whole part of 40031
   times the first hash, and the replica's number times the prime whose place in the table is nearest to the
   second hash's part of the primes in question.
   */
  lemma PlaceExactly(key: int, replica: nat, leaf: Node, hash: nat -> real, second: nat -> real, primes: seq<nat>,
                     lowest: nat, start: nat, i: nat, r: int)
    requires leaf.Leaf? && leaf.cluster.servers > 0 && 0.0 <= second(leaf.index) <= 1.0
    requires lowest <= i < |primes| && IsNearest(i - lowest, Times(second(leaf.index), (|primes| - lowest - 1) as real))
    requires start as real <= Times(hash(leaf.index), 40031.0) < start as real + 1.0
    ensures r == PlaceOf(key, replica, leaf, hash, second, primes, lowest)
       <==> IsRemainder(r, key + start + replica * primes[i], leaf.cluster.servers)
  {
    var n := PrimeIndex(second(leaf.index), lowest, |primes|);
    NearestIsUnique(i - lowest, n - lowest, Times(second(leaf.index), (|primes| - lowest - 1) as real));
    assert StartOf(key, leaf, hash) == key + start;
    TruncModIsRemainder(key + start + replica * primes[i], leaf.cluster.servers, r);
  }

  /** A negative key can lead below the cluster: here to server -1 of the first one. */
  lemma NegativeKeyLeavesCluster(leaf: Node, hash: nat -> real, second: nat -> real, primes: seq<nat>, lowest: nat)
    requires leaf.Leaf? && leaf.cluster.servers > 1 && hash(leaf.index) == 0.0
    requires lowest < |primes| && 0.0 <= second(leaf.index) <= 1.0
    ensures PlaceOf(-1, 0, leaf, hash, second, primes, lowest) == -1
  {
    assert Times(0.0, 40031.0) == 0.0;
    assert 0 * StrideOf(leaf, second, primes, lowest) == 0;
  }

  // ---- the policy ----

  /** The hashes of an extent, by node number; the first ones lead to a cluster. */
  ghost predicate Hashes(hash: nat -> real, second: nat -> real, root: Node) {
    InUnit(hash) && InUnit(second) && Descend(root, hash).Some?
  }

  function ClustersOf(disks: seq<Disk>, average: real): (clusters: seq<SubCluster>)
    requires average != 0.0
    ensures |clusters| == |Kinds(disks)|
  {
    seq(|Kinds(disks)|, c requires 0 <= c < |Kinds(disks)| =>
      SubCluster(CountOf(KindIndices(disks), c), RushR.Normalized(Kinds(disks)[c], average)))
  }

  /** The server of one replica, in the cluster that the tree leads to. */
  method Rusht(root: Node, counts: seq<nat>, primes: seq<nat>, lowest: nat, key: int, replica: nat,
               hash: nat -> real, second: nat -> real, ghost leaf: Node) returns (server: int)
    requires Descend(root, hash) == Some(leaf) && leaf.Leaf? && leaf.index < |counts| && leaf.cluster.servers > 0
    requires lowest < |primes| && 0.0 <= second(leaf.index) <= 1.0
    ensures server == counts[leaf.index] + PlaceOf(key, replica, leaf, hash, second, primes, lowest)
  {
    var found := GetSubCluster(root, hash);
    var node := found.node;
    var randomKey := Shuffle.Truncate(Times(hash(node.index), 40031.0));
    var randomPrime := primes[PrimeIndex(second(node.index), lowest, |primes|)];
    server := counts[node.index] + TruncMod(key + randomKey + replica * randomPrime, node.cluster.servers);
  }

  /** The tree, server counts and prime index that belong to the clusters. */
  ghost predicate Prepared(clusters: seq<SubCluster>, root: Node, counts: seq<nat>, primes: seq<nat>, lowest: nat) {
    && Usable(clusters) && root == Tree(clusters) && PrimeTable(primes) && lowest < |primes|
    && |counts| == |clusters| && (forall i | 0 <= i < |counts| :: counts[i] == ServersBefore(Servers(clusters), i))
    && forall i | 0 <= i < |clusters| :: clusters[i].servers < primes[lowest]
  }

  /** All sums before the remainder are not negative, or multiples of the cluster's size. */
  ghost predicate StaysInside(key: int, copies: nat, leaf: Node, hash: nat -> real, second: nat -> real,
                              primes: seq<nat>, lowest: nat)
    requires leaf.Leaf? && leaf.cluster.servers > 0 && lowest < |primes| && 0.0 <= second(leaf.index) <= 1.0
  {
    forall i: nat | i < copies :: SumStaysInside(key, i, leaf, hash, second, primes, lowest)
  }

  ghost predicate SumStaysInside(key: int, replica: nat, leaf: Node, hash: nat -> real, second: nat -> real,
                                 primes: seq<nat>, lowest: nat)
    requires leaf.Leaf? && leaf.cluster.servers > 0 && lowest < |primes| && 0.0 <= second(leaf.index) <= 1.0
  {
    var sum := StartOf(key, leaf, hash) + replica * StrideOf(leaf, second, primes, lowest);
    sum >= 0 || Divides(leaf.cluster.servers, sum)
  }

  /**
   The servers of the replicas of one extent: always different ones, and all of the cluster that the
   tree leads to exactly when the key lets the sums stay inside, as every key from zero on does.
   */
  method PlaceReplicas(ghost clusters: seq<SubCluster>, root: Node, counts: seq<nat>, primes: seq<nat>, lowest: nat,
                       key: int, copies: nat, hash: nat -> real, second: nat -> real)
    returns (servers: seq<int>, ghost c: nat)
    requires Prepared(clusters, root, counts, primes, lowest) && Hashes(hash, second, root)
    requires forall i | 0 <= i < |clusters| :: clusters[i].servers >= copies
    ensures |servers| == copies && c < |clusters| && clusters[c].servers > 0
    ensures Descend(root, hash) == Some(InitLeaf(clusters[c], c))
    ensures PlacedFrom(servers, ServersBefore(Servers(clusters), c), key, InitLeaf(clusters[c], c), hash, second,
            primes, lowest)
    ensures Distinct(servers)
    ensures RushR.Within(servers, ServersBefore(Servers(clusters), c), ServersBefore(Servers(clusters), c + 1))
       <==> StaysInside(key, copies, InitLeaf(clusters[c], c), hash, second, primes, lowest)
    ensures key >= 0 ==> StaysInside(key, copies, InitLeaf(clusters[c], c), hash, second, primes, lowest)
  {
    c := ChosenCluster(clusters, hash);
    ghost var leaf := InitLeaf(clusters[c], c);
    servers := [];
    for replica := 0 to copies
      invariant |servers| == replica
      invariant PlacedFrom(servers, ServersBefore(Servers(clusters), c), key, leaf, hash, second, primes, lowest)
    {
      var server := Rusht(root, counts, primes, lowest, key, replica, hash, second, leaf);
      servers := servers + [server];
    }
    PlacedDistinct(servers, ServersBefore(Servers(clusters), c), key, leaf, hash, second, primes, lowest);
    PlacedInside(servers, ServersBefore(Servers(clusters), c), key, leaf, hash, second, primes, lowest);
  }

  /** The servers are the places of the replicas, behind the servers of the clusters before. */
  ghost predicate PlacedFrom(servers: seq<int>, base: nat, key: int, leaf: Node, hash: nat -> real, second: nat -> real,
                             primes: seq<nat>, lowest: nat)
    requires leaf.Leaf? && leaf.cluster.servers > 0 && lowest < |primes| && 0.0 <= second(leaf.index) <= 1.0
  {
    forall i | 0 <= i < |servers| :: servers[i] == base + PlaceOf(key, i, leaf, hash, second, primes, lowest)
  }

  lemma PlacedDistinct(servers: seq<int>, base: nat, key: int, leaf: Node, hash: nat -> real, second: nat -> real,
                       primes: seq<nat>, lowest: nat)
    requires PrimeTable(primes) && lowest < |primes| && leaf.Leaf? && 0 < leaf.cluster.servers < primes[lowest]
    requires 0.0 <= second(leaf.index) <= 1.0 && |servers| <= leaf.cluster.servers
    requires PlacedFrom(servers, base, key, leaf, hash, second, primes, lowest)
    ensures Distinct(servers)
  {
    forall i, j | 0 <= i < j < |servers| ensures servers[i] != servers[j] {
      ReplicasDiffer(key, i, j, leaf, hash, second, primes, lowest);
    }
  }

  lemma PlacedInside(servers: seq<int>, base: nat, key: int, leaf: Node, hash: nat -> real, second: nat -> real,
                     primes: seq<nat>, lowest: nat)
    requires leaf.Leaf? && leaf.cluster.servers > 0 && lowest < |primes|
    requires 0.0 <= second(leaf.index) <= 1.0 && hash(leaf.index) >= 0.0
    requires PlacedFrom(servers, base, key, leaf, hash, second, primes, lowest)
    ensures RushR.Within(servers, base, base + leaf.cluster.servers)
       <==> StaysInside(key, |servers|, leaf, hash, second, primes, lowest)
    ensures key >= 0 ==> StaysInside(key, |servers|, leaf, hash, second, primes, lowest)
  {
    forall i: nat | i < |servers|
      ensures base <= servers[i] < base + leaf.cluster.servers
              <==> SumStaysInside(key, i, leaf, hash, second, primes, lowest)
      ensures key >= 0 ==> SumStaysInside(key, i, leaf, hash, second, primes, lowest)
    {
      PlaceInCluster(key, i, leaf, hash, second, primes, lowest);
    }
  }

  /** The leaf that the descent finds is one of the clusters. */
  lemma ChosenCluster(clusters: seq<SubCluster>, hash: nat -> real) returns (c: nat)
    requires Usable(clusters) && Descend(Tree(clusters), hash).Some?
    ensures c < |clusters| && Descend(Tree(clusters), hash) == Some(InitLeaf(clusters[c], c))
  {
    TreeIsSound(clusters);
    DescendFindsLeaf(Tree(clusters), hash);
    c :| 0 <= c < |clusters| && LeafRow(clusters)[c] == Descend(Tree(clusters), hash).node;
  }

  lemma {:induction false} ServersBeforeCounts(disks: seq<Disk>, average: real, c: nat)
    requires average != 0.0 && c <= |Kinds(disks)|
    ensures ServersBefore(Servers(ClustersOf(disks, average)), c) == CountBelow(KindIndices(disks), c) <= |disks|
  {
    var n := |Kinds(disks)|;
    assert Servers(ClustersOf(disks, average)) == Sizes(KindIndices(disks), n);
    BlocksCount(KindIndices(disks), n, c);
  }

  /** The place i of the disk list lies in the block of servers of the disk's own cluster. */
  ghost predicate PlaceInBlock(disks: seq<Disk>, average: real, i: nat)
    requires average != 0.0 && i < |disks|
  {
    var sizes, c := Servers(ClustersOf(disks, average)), KindIndices(disks)[i];
    ServersBefore(sizes, c) <= i < ServersBefore(sizes, c + 1)
  }

  /**
   A server number lies within the block of its cluster but is looked up by place in the list of disks:
   the disk found is of that cluster, for every number, exactly when the list is grouped by key.
   */
  lemma PlacesMatchClusters(disks: seq<Disk>, average: real)
    requires average != 0.0
    ensures (forall i | 0 <= i < |disks| :: PlaceInBlock(disks, average, i)) <==> Grouped(KindIndices(disks))
  {
    BlocksMatchIffGrouped(KindIndices(disks));
    forall i | 0 <= i < |disks| ensures PlaceInBlock(disks, average, i) <==> InOwnBlock(KindIndices(disks), i) {
      PlaceIsOwnBlock(disks, average, i);
    }
    if forall i | 0 <= i < |disks| :: PlaceInBlock(disks, average, i) {
      forall i | 0 <= i < |disks| ensures InOwnBlock(KindIndices(disks), i) {
        assert PlaceInBlock(disks, average, i);
      }
    }
  }

  lemma PlaceIsOwnBlock(disks: seq<Disk>, average: real, i: nat)
    requires average != 0.0 && i < |disks|
    ensures PlaceInBlock(disks, average, i) <==> InOwnBlock(KindIndices(disks), i)
  {
    ServersBeforeCounts(disks, average, KindIndices(disks)[i]);
    ServersBeforeCounts(disks, average, KindIndices(disks)[i] + 1);
  }

  lemma DisksUsable(disks: seq<Disk>, average: real)
    requires disks != [] && average > 0.0 && forall i | 0 <= i < |disks| :: disks[i].capacity > 0
    ensures Usable(ClustersOf(disks, average))
  {
    RushR.KindsPositive(disks);
    forall c | 0 <= c < |Kinds(disks)| ensures RushR.Normalized(Kinds(disks)[c], average) > 0.0 {
      NormalizedPositive(Kinds(disks)[c], average);
    }
  }

  lemma NormalizedPositive(weight: nat, average: real)
    requires weight > 0 && average > 0.0
    ensures RushR.Normalized(weight, average) > 0.0
  {
    RushR.NormalizedScales(weight, average);
    if RushR.Normalized(weight, average) <= 0.0 {
      NonNegative(-RushR.Normalized(weight, average), average);
    }
  }

  class DistRUSHt {
    const copies: nat
    const primes: seq<nat>
    var root: Child
    var counts: seq<nat>
    var lowest: nat
    var allDisks: seq<Disk>
    /** The average capacity that the clusters' weights are relative to. */
    ghost var average: real

    ghost predicate Valid()
      reads this
    {
      && average > 0.0 && root.Some?
      && Prepared(ClustersOf(allDisks, average), root.node, counts, primes, lowest)
      && EachHolds(allDisks, copies)
    }

    constructor (copies: nat, primes: seq<nat>)
      ensures this.copies == copies && this.primes == primes
    {
      this.copies, this.primes := copies, primes;
      root, counts, lowest, allDisks, average := None, [], 0, [], 1.0;
    }

    /** Groups the disks by the low 32 bits of their capacity; refuses a cluster smaller than the number of copies. */
    method SetDisks(disks: seq<Disk>) returns (ok: bool)
      requires disks != [] && forall i | 0 <= i < |disks| :: disks[i].capacity > 0
      requires PrimeTable(primes) && Reaches(primes, |disks|)
      modifies this
      ensures ok <==> EachHolds(disks, copies)
      ensures ok ==> Valid() && allDisks == disks
      ensures !ok ==> unchanged(this)
    {
      var clusters, average := GroupDisks(disks);
      ok := LargeEnough(disks, average, clusters, copies);
      if !ok { return; }
      var tree, counts, lowest := Prepare(disks, average, clusters, primes);
      root, this.counts, this.lowest, allDisks, this.average := Some(tree), counts, lowest, disks, average;
    }

    /**
     One disk per copy, on different places of the list, and all in the block of the cluster that the
     tree leads to exactly when the sums stay inside. Places before the list are not disks.
     */
    method PlaceExtent(position: int, hash: nat -> real, second: nat -> real)
      returns (used: seq<Disk>, ghost servers: seq<int>, ghost c: nat)
      requires Valid() && Hashes(hash, second, root.node)
      requires InList(counts, position, copies, Descend(root.node, hash).node, hash, second, primes, lowest)
      ensures |used| == copies == |servers| && c < |Kinds(allDisks)|
      ensures Descend(root.node, hash) == Some(InitLeaf(ClustersOf(allDisks, average)[c], c))
      ensures forall i | 0 <= i < copies :: 0 <= servers[i] < |allDisks| && used[i] == allDisks[servers[i]]
      ensures Distinct(servers)
      ensures var clusters := ClustersOf(allDisks, average);
              && clusters[c].servers > 0
              && (RushR.Within(servers, ServersBefore(Servers(clusters), c), ServersBefore(Servers(clusters), c + 1))
                  <==> StaysInside(position, copies, InitLeaf(clusters[c], c), hash, second, primes, lowest))
              && (position >= 0 ==> StaysInside(position, copies, InitLeaf(clusters[c], c), hash, second, primes,
                 lowest))
    {
      ghost var clusters := ClustersOf(allDisks, average);
      ClustersHold(allDisks, average, copies);
      var places;
      places, c := PlaceReplicas(clusters, root.node, counts, primes, lowest, position, copies, hash, second);
      servers := places;
      ServersBeforeCounts(allDisks, average, c + 1);
      PlacedInList(places, counts, position, InitLeaf(clusters[c], c), hash, second, primes, lowest);
      used := DisksAt(allDisks, places);
    }
  }

  /** No replica's place lies before the list of disks. */
  ghost predicate InList(counts: seq<nat>, key: int, copies: nat, leaf: Node, hash: nat -> real, second: nat -> real,
                         primes: seq<nat>, lowest: nat)
  {
    && leaf.Leaf? && leaf.index < |counts| && leaf.cluster.servers > 0 && lowest < |primes|
       && 0.0 <= second(leaf.index) <= 1.0
    && forall i: nat | i < copies :: 0 <= counts[leaf.index] + PlaceOf(key, i, leaf, hash, second, primes, lowest)
  }

  lemma PlacedInList(servers: seq<int>, counts: seq<nat>, key: int, leaf: Node, hash: nat -> real,
                     second: nat -> real, primes: seq<nat>, lowest: nat)
    requires InList(counts, key, |servers|, leaf, hash, second, primes, lowest)
    requires PlacedFrom(servers, counts[leaf.index], key, leaf, hash, second, primes, lowest)
    ensures forall i | 0 <= i < |servers| :: 0 <= servers[i] < counts[leaf.index] + leaf.cluster.servers
  {
    forall i: nat | i < |servers| ensures PlaceOf(key, i, leaf, hash, second, primes, lowest) < leaf.cluster.servers {
      TruncBelow(StartOf(key, leaf, hash) + i * StrideOf(leaf, second, primes, lowest), leaf.cluster.servers);
    }
  }

  lemma TruncBelow(a: int, m: nat)
    requires m > 0
    ensures TruncMod(a, m) < m
  {
  }

  /** A position from zero on leads to places in the list. */
  lemma {:induction false} NonNegativeInList(clusters: seq<SubCluster>, root: Node, counts: seq<nat>,
                                             primes: seq<nat>, lowest: nat,
                                             key: nat, copies: nat, hash: nat -> real, second: nat -> real)
    requires Prepared(clusters, root, counts, primes, lowest) && Hashes(hash, second, root)
    ensures InList(counts, key, copies, Descend(root, hash).node, hash, second, primes, lowest)
  {
    var c := ChosenCluster(clusters, hash);
    forall i: nat | i < copies ensures 0 <= PlaceOf(key, i, InitLeaf(clusters[c], c), hash, second, primes, lowest) {
      PlaceInCluster(key, i, InitLeaf(clusters[c], c), hash, second, primes, lowest);
    }
  }

  lemma {:induction false} ClustersHold(disks: seq<Disk>, average: real, copies: nat)
    requires average != 0.0 && EachHolds(disks, copies)
    ensures forall i | 0 <= i < |Kinds(disks)| :: ClustersOf(disks, average)[i].servers >= copies
  {
    forall i | 0 <= i < |Kinds(disks)| ensures ClustersOf(disks, average)[i].servers >= copies {
      HoldsAt(KindIndices(disks), copies, |Kinds(disks)|, i);
    }
  }

  lemma {:induction false} LargestAtMost(disks: seq<Disk>, average: real, n: nat)
    requires average != 0.0 && n <= |Kinds(disks)|
    ensures Largest(ClustersOf(disks, average), n) <= |disks|
  {
    if n > 0 { LargestAtMost(disks, average, n - 1); }
  }

  /** Every cluster of these disks has at least as many of them as there are copies. */
  ghost predicate EachHolds(disks: seq<Disk>, copies: nat) {
    FirstHold(KindIndices(disks), copies, |Kinds(disks)|)
  }

  /** The first n clusters do. */
  ghost predicate FirstHold(s: seq<nat>, copies: nat, n: nat) {
    n == 0 || (FirstHold(s, copies, n - 1) && CountOf(s, n - 1) >= copies)
  }

  lemma {:induction false} HoldsAt(s: seq<nat>, copies: nat, n: nat, c: nat)
    requires FirstHold(s, copies, n) && c < n
    ensures CountOf(s, c) >= copies
  {
    if c < n - 1 { HoldsAt(s, copies, n - 1, c); }
  }

  method LargeEnough(ghost disks: seq<Disk>, ghost average: real, clusters: seq<SubCluster>, copies: nat)
    returns (ok: bool)
    requires average != 0.0 && clusters == ClustersOf(disks, average)
    ensures ok <==> EachHolds(disks, copies)
  {
    ok := true;
    for c := 0 to |clusters|
      invariant ok <==> FirstHold(KindIndices(disks), copies, c)
    {
      assert clusters[c].servers == CountOf(KindIndices(disks), c);
      if clusters[c].servers < copies { ok := false; }
    }
  }

  method Prepare(ghost disks: seq<Disk>, ghost average: real, clusters: seq<SubCluster>, primes: seq<nat>)
    returns (tree: Node, counts: seq<nat>, lowest: nat)
    requires disks != [] && forall i | 0 <= i < |disks| :: disks[i].capacity > 0
    requires average > 0.0 && clusters == ClustersOf(disks, average) && PrimeTable(primes) && Reaches(primes, |disks|)
    ensures Prepared(clusters, tree, counts, primes, lowest)
  {
    DisksUsable(disks, average);
    LargestAtMost(disks, average, |clusters|);
    tree := ConstructTree(clusters);
    counts := CumulativeServerCounts(clusters);
    lowest := LowestPrimeIndex(primes, clusters);
  }

  /** The average capacity of the disks of the clusters. */
  ghost function AverageOf(disks: seq<Disk>): real
    requires disks != []
  {
    Quotient(RushR.TotalWeight(Sizes(KindIndices(disks), |Kinds(disks)|), Kinds(disks), |Kinds(disks)|) as real,
        |disks| as real)
  }

  /** The clusters of the disks, with weights relative to the average capacity. */
  method GroupDisks(disks: seq<Disk>) returns (clusters: seq<SubCluster>, average: real)
    requires disks != [] && forall i | 0 <= i < |disks| :: disks[i].capacity > 0
    ensures average == AverageOf(disks) > 0.0 && clusters == ClustersOf(disks, average)
  {
    var index, weights := NumberKinds(disks);
    var lists := FillClusters(disks, index, |weights|);
    var sizes := seq(|weights|, c requires 0 <= c < |weights| => |lists[c]|);
    assert sizes == Sizes(KindIndices(disks), |weights|);
    AveragePositive(disks);
    average := AverageCapacity(disks, sizes, weights);
    clusters := [];
    for c := 0 to |weights|
      invariant clusters == ClustersOf(disks, average)[..c]
    {
      clusters := clusters + [SubCluster(sizes[c], RushR.Normalized(weights[c], average))];
    }
  }

  lemma AveragePositive(disks: seq<Disk>)
    requires disks != [] && forall i | 0 <= i < |disks| :: disks[i].capacity > 0
    ensures AverageOf(disks) > 0.0
  {
    RushR.KindsPositive(disks);
    RushR.SumsPositive(Sizes(KindIndices(disks), |Kinds(disks)|), Kinds(disks), |Kinds(disks)|);
    QuotientPositive(RushR.TotalWeight(Sizes(KindIndices(disks), |Kinds(disks)|), Kinds(disks), |Kinds(disks)|),
        |disks|);
  }

  lemma QuotientPositive(a: nat, b: nat)
    requires a > 0 && b > 0
    ensures Quotient(a as real, b as real) > 0.0
  {
  }

  method AverageCapacity(disks: seq<Disk>, sizes: seq<nat>, weights: seq<nat>) returns (average: real)
    requires disks != [] && weights == Kinds(disks) && sizes == Sizes(KindIndices(disks), |weights|)
    ensures average == AverageOf(disks)
  {
    var total := 0.0;
    for c := 0 to |weights|
      invariant total == RushR.TotalWeight(sizes, weights, c) as real
    {
      total := total + RushR.ClusterCapacity(sizes[c], weights[c]) as real;
    }
    average := Quotient(total, |disks| as real);
  }
}
