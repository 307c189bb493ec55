/**
 RUSH_R: the replicas of an extent are allotted cluster by cluster, from the newest to the oldest, and
 drawn without repetition within each cluster.
 */
module RushR {
  import opened Arithmetic
  import opened Sequences
  import opened Disks
  import opened WichmannHill
  import opened Shuffle
  import opened Clusters

  /** One cluster, with the sums over all clusters up to it. */
  datatype Group = Group(servers: nat, weight: real, weightedServers: real, cumulative: nat, weightedCumulative: real)

  /** Servers in the clusters before c. */
  function Before(groups: seq<Group>, c: nat): nat
    requires c <= |groups|
  {
    if c == 0 then 0 else groups[c-1].cumulative
  }

  ghost predicate Cumulative(groups: seq<Group>) {
    forall c | 0 <= c < |groups| :: CumulativeAt(groups, c)
  }

  ghost predicate CumulativeAt(groups: seq<Group>, c: nat)
    requires c < |groups|
  {
    groups[c].cumulative == Before(groups, c) + groups[c].servers
  }

  /** Every cluster can hold r replicas on its own. */
  ghost predicate HoldsEach(groups: seq<Group>, r: nat) {
    forall c | 0 <= c < |groups| :: groups[c].servers >= r
  }

  // ---- how many replicas a cluster gets ----

  /** Comparison with a quotient whose divisor may be zero: the quotient is then infinite, or no number. */
  function IsBelow(u: real, n: real, d: real): bool {
    if d == 0.0 then n > 0.0 else u < n / d
  }

  /** Positive samples after r rounds, starting with n positives among d. */
  function Positives(n: real, d: real, s: State, r: nat): (p: nat)
    ensures p <= r
  {
    if r == 0 then 0
    else
      var p := Positives(n, d, s, r - 1);
      if IsBelow(Uniform(Steps(s, r)), n - p as real, d - (r - 1) as real) then p + 1 else p
  }

  function Sample(r: nat, n: real, d: real, w: real, s: State): (p: nat)
    ensures p <= r
  {
    if w == 0.0 then 0 else Positives(n / w, d / w, s, r)
  }

  /** The generator state after sampling. */
  function Sampled(r: nat, w: real, s: State): State {
    if w == 0.0 then s else Steps(s, r)
  }

  method ISample(r: nat, n: real, d: real, w: real, gen: Generator) returns (positives: nat)
    modifies gen
    ensures positives == Sample(r, n, d, w, old(gen.Current()))
    ensures gen.Current() == Sampled(r, w, old(gen.Current()))
  {
    positives := 0;
    if w == 0.0 { return; }
    var d', n' := d / w, n / w;
    for i := 0 to r
      invariant gen.Current() == Steps(old(gen.Current()), i)
      invariant positives == Positives(n / w, d / w, old(gen.Current()), i)
      invariant n' == n / w - positives as real && d' == d / w - i as real
    {
      var u := gen.Random();
      if IsBelow(u, n', d') {
        positives := positives + 1;
        n' := n' - 1.0;
      }
      d' := d' - 1.0;
    }
  }

  /** What must go to cluster c because the clusters before it cannot hold it. */
  function Mandatory(groups: seq<Group>, c: nat, remaining: nat): (m: nat)
    requires c <= |groups|
    ensures m <= remaining
  {
    if Before(groups, c) < remaining then remaining - Before(groups, c) else 0
  }

  /** The generator when cluster c is considered. */
  function StateAt(key: int, c: nat): State { Jumped(Seeded(key), (c + 2) * 7) }

  /** How many of the remaining replicas go to cluster c. */
  function Count(groups: seq<Group>, key: int, c: nat, remaining: nat): (count: nat)
    requires c < |groups|
    ensures Mandatory(groups, c, remaining) <= count <= remaining
  {
    var m := Mandatory(groups, c, remaining);
    var g := groups[c];
    m + Sample(remaining - m, g.weightedServers - m as real, g.weightedCumulative - m as real, g.weight,
        StateAt(key, c))
  }

  /** Comparison with a quotient, without the quotient. */
  lemma BelowExactly(u: real, n: real, d: real)
    ensures d > 0.0 ==> (IsBelow(u, n, d) <==> u * d < n)
    ensures d < 0.0 ==> (IsBelow(u, n, d) <==> u * d > n)
    ensures d == 0.0 ==> (IsBelow(u, n, d) <==> n > 0.0)
  {
    if d != 0.0 {
      var q := n / d;
      assert q * d == n;
      assert (q - u) * d == q * d - u * d;
      if d > 0.0 {
        if u < q { PositiveProduct(q - u, d); } else { NonNegative(u - q, d); }
      } else {
        assert (q - u) * -d == -((q - u) * d);
        if u < q { PositiveProduct(q - u, -d); } else { NonNegative(u - q, -d); }
      }
    }
  }

  /** u times what is left of d is less than what is left of n, after i rounds of which p found a server of weight w. */
  predicate Finds(u: real, n: real, d: real, w: real, p: real, i: real) {
    u * (d - i * w) < n - p * w
  }

  /**
   A round that draws u, after i rounds that found p replicas for a cluster with weight n among clusters with
   weight d: it finds another one exactly if u times what all these clusters still have is less than what this
   one still has. A found replica takes one server's weight off the latter, every round one off the former.
   */
  lemma RoundFinds(u: real, n: real, d: real, w: real, p: real, i: real)
    requires w > 0.0 && d - i * w > 0.0
    ensures IsBelow(u, n / w - p, d / w - i) <==> Finds(u, n, d, w, p, i)
  {
    var n', d' := n / w - p, d / w - i;
    ScaleBack(n, w, p);
    ScaleBack(d, w, i);
    PositiveFactor(d', w);
    BelowExactly(u, n', d');
    CompareTimes(u, d', n', w, d - i * w, n - p * w);
  }

  /** The rounds one after the other: a found replica takes one off n, every round one off d. */
  lemma RoundsCount(n: real, d: real, s: State, r: nat, u: real, found: bool)
    requires r > 0 && u == Uniform(Steps(s, r))
    requires found <==> IsBelow(u, n - Positives(n, d, s, r - 1) as real, d - (r - 1) as real)
    ensures Positives(n, d, s, r) == Positives(n, d, s, r - 1) + (if found then 1 else 0) && Positives(n, d, s, 0) == 0
  {
  }

  /** How many of the replicas that cluster c need not take it has got after i rounds. */
  function FoundAfter(groups: seq<Group>, key: int, c: nat, remaining: nat, i: nat): nat
    requires c < |groups| && groups[c].weight != 0.0
  {
    var g, m := groups[c], Mandatory(groups, c, remaining) as real;
    Positives((g.weightedServers - m) / g.weight, (g.weightedCumulative - m) / g.weight, StateAt(key, c), i)
  }

  /**
   Cluster c gets what it must, and then one more in every round i whose number u finds one: exactly if u
   times the weight that the clusters up to c still have is less than the weight that c still has.
   */
  lemma CountExactly(groups: seq<Group>, key: int, c: nat, remaining: nat, i: nat, u: real, found: bool)
    requires c < |groups| && groups[c].weight > 0.0 && i > 0 && u == Uniform(Steps(StateAt(key, c), i))
    requires var g, m, p := groups[c], Mandatory(groups, c, remaining) as real,
                            FoundAfter(groups, key, c, remaining, i - 1) as real;
             && g.weightedCumulative - m - (i - 1) as real * g.weight > 0.0
             && (found <==> Finds(u, g.weightedServers - m, g.weightedCumulative - m, g.weight, p, (i - 1) as real))
    ensures FoundAfter(groups, key, c, remaining, 0) == 0
    ensures FoundAfter(groups, key, c, remaining, i)
         == FoundAfter(groups, key, c, remaining, i - 1) + (if found then 1 else 0)
    ensures var m := Mandatory(groups, c, remaining);
            Count(groups, key, c, remaining) == m + FoundAfter(groups, key, c, remaining, remaining - m)
  {
    var g, m, p := groups[c], Mandatory(groups, c, remaining) as real, FoundAfter(groups, key, c, remaining, i - 1);
    RoundFinds(u, g.weightedServers - m, g.weightedCumulative - m, g.weight, p as real, (i - 1) as real);
    RoundsCount((g.weightedServers - m) / g.weight, (g.weightedCumulative - m) / g.weight, StateAt(key, c), i, u,
        found);
  }

  lemma ScaleBack(n: real, w: real, p: real)
    requires w > 0.0
    ensures (n / w - p) * w == n - p * w
  {
    assert (n / w) * w == n;
    assert (n / w - p) * w == (n / w) * w - p * w;
  }

  lemma PositiveFactor(x: real, w: real)
    requires w > 0.0 && x * w > 0.0
    ensures x > 0.0
  {
    assert -x * w == -(x * w);
    if x <= 0.0 { NonNegative(-x, w); }
  }

  lemma CompareTimes(u: real, d: real, n: real, w: real, x: real, y: real)
    requires w > 0.0 && d * w == x && n * w == y
    ensures u * d < n <==> u * x < y
  {
    UnscaleOrder(n, u * d, w);
    assert (u * d) * w == u * (d * w);
  }

  /** For keys from zero on the generator of cluster c is the seeded one after 7 * (c + 2) steps. */
  lemma StateAtSteps(key: int, c: nat)
    requires key >= 0
    ensures StateAt(key, c) == Steps(Seeded(key), 7 * (c + 2))
  {
    SeedInRange(key);
    JumpIsSteps(Seeded(key), (c + 2) * 7);
  }

  function DrawState(groups: seq<Group>, key: int, c: nat, remaining: nat): State
    requires c < |groups|
  {
    Sampled(remaining - Mandatory(groups, c, remaining), groups[c].weight, StateAt(key, c))
  }

  /** The draws in cluster c, for the replicas that remain, all are places. */
  ghost predicate BlockDrawn(groups: seq<Group>, key: int, c: nat, remaining: nat) {
    && c < |groups| && remaining <= groups[c].servers
    && DrawsPlaces(DrawState(groups, key, c, remaining), groups[c].servers, Count(groups, key, c, remaining))
  }

  /** The draws actually made all are places, when the clusters c - 1, ..., 0 are still to be considered. */
  ghost predicate Drawable(groups: seq<Group>, key: int, c: nat, remaining: nat)
    requires c <= |groups|
    decreases c
  {
    c == 0 || remaining == 0
    || (BlockDrawn(groups, key, c - 1, remaining)
        && Drawable(groups, key, c - 1, remaining - Count(groups, key, c - 1, remaining)))
  }

  /** With a usable seed every draw is a place; every key that is not negative gives one. */
  lemma {:induction false} SeedDrawable(groups: seq<Group>, key: int, c: nat, remaining: nat)
    requires c <= |groups| && HoldsEach(groups, remaining)
    ensures InRange(Seeded(key)) ==> Drawable(groups, key, c, remaining)
    ensures key >= 0 ==> Drawable(groups, key, c, remaining)
    decreases c
  {
    SeedInRange(key);
    if InRange(Seeded(key)) && c > 0 && remaining > 0 {
      BlockOfSeed(groups, key, c - 1, remaining);
      SeedDrawable(groups, key, c - 1, remaining - Count(groups, key, c - 1, remaining));
    }
  }

  lemma BlockOfSeed(groups: seq<Group>, key: int, c: nat, remaining: nat)
    requires c < |groups| && remaining <= groups[c].servers && InRange(Seeded(key))
    ensures BlockDrawn(groups, key, c, remaining)
  {
    JumpIsSteps(Seeded(key), (c + 2) * 7);
    StepsInRange(Seeded(key), (c + 2) * 7);
    StepsInRange(StateAt(key, c), remaining - Mandatory(groups, c, remaining));
    InRangeNeverNegative(DrawState(groups, key, c, remaining));
    NeverNegativeDraws(DrawState(groups, key, c, remaining), groups[c].servers, Count(groups, key, c, remaining));
  }

  /** The first cluster takes all that remains without sampling. */
  lemma FirstClusterTakesAll(groups: seq<Group>, key: int, remaining: nat)
    requires groups != []
    ensures Count(groups, key, 0, remaining) == remaining && DrawState(groups, key, 0, remaining) == StateAt(key, 0)
  {
    if groups[0].weight != 0.0 { assert Steps(StateAt(key, 0), 0) == StateAt(key, 0); }
  }

  /**
   Key -60540 leaves the scratch area as soon as one of two servers of the first cluster is drawn: that is
   place -1. The only server of a first cluster is drawn as place 0.
   */
  lemma NegativeKeyDrawsBelow(groups: seq<Group>, remaining: nat)
    requires groups != [] && 0 < remaining <= groups[0].servers
    ensures groups[0].servers == 2 ==> !Drawable(groups, -60540, 1, remaining)
    ensures groups[0].servers == 1 ==> Drawable(groups, -60540, 1, remaining)
  {
    var s, n := StateAt(-60540, 0), groups[0].servers;
    FirstClusterTakesAll(groups, -60540, remaining);
    NegativeSeedDrawsBelow();
    assert Steps(s, 1) == Next(Steps(s, 0)) == Next(s);
    ScaledBelow(Uniform(Next(s)));
    if n == 2 && DrawsPlaces(s, 2, remaining) { DrawsPlacesBefore(s, 2, 1, remaining); }
    if n == 1 { assert DrawsPlaces(s, 1, 0); }
  }

  lemma ScaledBelow(u: real)
    requires -1.0 < u < -0.5
    ensures Truncate(Scale(u, 2)) == -1 && Truncate(Scale(u, 1)) == 0
  {
    assert Scale(u, 2) == u * 2.0 && Scale(u, 1) == u;
  }

  // ---- the placement ----

  function Offset(a: seq<nat>, d: nat): (b: seq<nat>)
    ensures |b| == |a| && forall i | 0 <= i < |a| :: b[i] == a[i] + d
  {
    seq(|a|, i requires 0 <= i < |a| => a[i] + d)
  }

  /** The servers that cluster c gives to the remaining replicas. */
  function Block(groups: seq<Group>, total: nat, key: int, c: nat, remaining: nat): (b: seq<nat>)
    requires c < |groups| && groups[c].servers <= total && BlockDrawn(groups, key, c, remaining)
    ensures |b| == Count(groups, key, c, remaining)
  {
    Offset(Drawn(total, groups[c].servers, Count(groups, key, c, remaining), DrawState(groups, key, c, remaining)),
           Before(groups, c))
  }

  ghost predicate Within(a: seq<int>, lo: int, hi: int) {
    forall i | 0 <= i < |a| :: lo <= a[i] < hi
  }

  /** Different servers of cluster c, and at least what the clusters before it cannot hold of r replicas. */
  ghost predicate BlockSound(groups: seq<Group>, c: nat, r: nat, block: seq<nat>)
    requires c < |groups|
  {
    && Distinct(block) && Within(block, Before(groups, c), Before(groups, c + 1))
    && |block| <= r <= |block| + Before(groups, c)
  }

  lemma BlockIsSound(groups: seq<Group>, total: nat, key: int, c: nat, remaining: nat)
    requires c < |groups| && groups[c].servers <= total && CumulativeAt(groups, c)
    requires BlockDrawn(groups, key, c, remaining)
    ensures BlockSound(groups, c, remaining, Block(groups, total, key, c, remaining))
  {
    DrawnDistinct(total, groups[c].servers, Count(groups, key, c, remaining), DrawState(groups, key, c, remaining));
  }

  /** What a cluster gives: servers, unless a draw lies outside the scratch area. */
  datatype Given = Outside | Inside(servers: seq<nat>)

  ghost function BlocksOf(groups: seq<Group>, total: nat, key: int): (nat, nat) -> Given {
    (c: nat, r: nat) =>
      if c < |groups| && r <= groups[c].servers <= total && BlockDrawn(groups, key, c, r)
      then Inside(Block(groups, total, key, c, r)) else Outside
  }

  /** The blocks are those of this key. */
  ghost predicate BlocksFor(groups: seq<Group>, total: nat, key: int, blocks: (nat, nat) -> Given) {
    forall c: nat, r: nat :: BlockFor(groups, total, key, blocks, c, r)
  }

  ghost predicate BlockFor(groups: seq<Group>, total: nat, key: int, blocks: (nat, nat) -> Given, c: nat, r: nat) {
    c < |groups| && r <= groups[c].servers <= total ==>
      blocks(c, r) == if BlockDrawn(groups, key, c, r) then Inside(Block(groups, total, key, c, r)) else Outside
  }

  ghost predicate SoundBlocks(groups: seq<Group>, blocks: (nat, nat) -> Given) {
    forall c: nat, r: nat | c < |groups| :: SoundBlock(groups, blocks, c, r)
  }

  ghost predicate SoundBlock(groups: seq<Group>, blocks: (nat, nat) -> Given, c: nat, r: nat)
    requires c < |groups|
  {
    blocks(c, r).Inside? ==> BlockSound(groups, c, r, blocks(c, r).servers)
  }

  lemma BlocksAreSound(groups: seq<Group>, total: nat, key: int)
    requires Cumulative(groups)
    ensures SoundBlocks(groups, BlocksOf(groups, total, key))
  {
    var blocks := BlocksOf(groups, total, key);
    forall c: nat, r: nat | c < |groups| ensures SoundBlock(groups, blocks, c, r) {
      assert CumulativeAt(groups, c);
      if blocks(c, r).Inside? { BlockIsSound(groups, total, key, c, r); }
    }
  }

  /** The servers for the replicas that remain when the clusters c - 1, ..., 0 are still to be considered. */
  function Assigned(blocks: (nat, nat) -> Given, c: nat, remaining: nat): Given
    decreases c
  {
    if c == 0 || remaining == 0 then Inside([])
    else Behind(blocks(c - 1, remaining),
                Assigned(blocks, c - 1, LeftAfter(blocks(c - 1, remaining), remaining)))
  }

  function LeftAfter(block: Given, remaining: nat): nat {
    if block.Inside? && |block.servers| < remaining then remaining - |block.servers| else 0
  }

  function Behind(block: Given, rest: Given): Given {
    if block.Inside? && rest.Inside? then Inside(block.servers + rest.servers) else Outside
  }

  ghost predicate FitsScratch(groups: seq<Group>, total: nat) {
    forall c | 0 <= c < |groups| :: groups[c].servers <= total
  }

  /** Different servers of the clusters before c, as many as remain, or none if there is no cluster. */
  ghost predicate AllPlaced(a: seq<nat>, groups: seq<Group>, c: nat, remaining: nat)
    requires c <= |groups|
  {
    Distinct(a) && Within(a, 0, Before(groups, c)) && |a| == if c == 0 then 0 else remaining
  }

  /**
   Exactly the replicas that remain are placed, on different servers of the clusters considered,
   whatever the samples and draws are, unless a draw lies outside: cluster 0 takes all that is left.
   */
  lemma {:induction false} AssignedIsSound(groups: seq<Group>, blocks: (nat, nat) -> Given, c: nat, remaining: nat)
    requires c <= |groups| && Cumulative(groups) && SoundBlocks(groups, blocks)
    ensures Assigned(blocks, c, remaining).Inside? ==>
              AllPlaced(Assigned(blocks, c, remaining).servers, groups, c, remaining)
    decreases c
  {
    if c > 0 && remaining > 0 && Assigned(blocks, c, remaining).Inside? {
      var block := blocks(c - 1, remaining);
      var left := LeftAfter(block, remaining);
      AssignedIsSound(groups, blocks, c - 1, left);
      assert SoundBlock(groups, blocks, c - 1, remaining);
      JoinPlaced(groups, c, remaining, block.servers, Assigned(blocks, c - 1, left).servers);
    }
  }

  lemma JoinPlaced(groups: seq<Group>, c: nat, remaining: nat, block: seq<nat>, rest: seq<nat>)
    requires 0 < c <= |groups| && Cumulative(groups) && BlockSound(groups, c - 1, remaining, block)
    requires AllPlaced(rest, groups, c - 1, remaining - |block|)
    ensures AllPlaced(block + rest, groups, c, remaining)
  {
    assert CumulativeAt(groups, c - 1);
    DisjointBlocks(block, rest, Before(groups, c - 1), Before(groups, c));
  }

  /** The run stays inside exactly when the draws that it makes are places. */
  lemma {:induction false} InsideExactly(groups: seq<Group>, total: nat, key: int, blocks: (nat, nat) -> Given,
                                         c: nat, remaining: nat)
    requires c <= |groups| && HoldsEach(groups, remaining) && FitsScratch(groups, total)
    requires BlocksFor(groups, total, key, blocks)
    ensures Assigned(blocks, c, remaining).Inside? <==> Drawable(groups, key, c, remaining)
    decreases c
  {
    if c > 0 && remaining > 0 {
      assert BlockFor(groups, total, key, blocks, c - 1, remaining);
      if BlockDrawn(groups, key, c - 1, remaining) {
        InsideExactly(groups, total, key, blocks, c - 1, LeftAfter(blocks(c - 1, remaining), remaining));
      }
    }
  }

  lemma DisjointBlocks(head: seq<nat>, tail: seq<nat>, lo: nat, hi: nat)
    requires Distinct(head) && Distinct(tail) && Within(head, lo, hi) && Within(tail, 0, lo) && lo <= hi
    ensures Distinct(head + tail) && Within(head + tail, 0, hi)
  {
  }

  // ---- the groups ----

  function ClusterCapacity(size: nat, weight: nat): nat {
    NatProduct(size, weight);
    size * weight
  }

  /** The capacity of all clusters before c. */
  function TotalWeight(sizes: seq<nat>, weights: seq<nat>, c: nat): nat
    requires c <= |sizes| == |weights|
  {
    if c == 0 then 0 else TotalWeight(sizes, weights, c - 1) + ClusterCapacity(sizes[c-1], weights[c-1])
  }

  function Normalized(weight: nat, average: real): real
    requires average != 0.0
  {
    weight as real / average
  }

  lemma NormalizedScales(weight: nat, average: real)
    requires average != 0.0
    ensures Normalized(weight, average) * average == weight as real
  {
  }

  function WeightedServers(weight: real, servers: nat): real { weight * servers as real }

  /** The group records of the first c clusters, when the average weight of a server is `average`. */
  function GroupsOf(sizes: seq<nat>, weights: seq<nat>, average: real, c: nat): (groups: seq<Group>)
    requires c <= |sizes| == |weights| && average != 0.0
    ensures |groups| == c
  {
    if c == 0 then []
    else
      var before := GroupsOf(sizes, weights, average, c - 1);
      var weight := Normalized(weights[c-1], average);
      var weighted := WeightedServers(weight, sizes[c-1]);
      before + [Group(sizes[c-1], weight, weighted,
                      sizes[c-1] + Before(before, c - 1), weighted + WeightedBefore(before, c - 1))]
  }

  function WeightedBefore(groups: seq<Group>, c: nat): real
    requires c <= |groups|
  {
    if c == 0 then 0.0 else groups[c-1].weightedCumulative
  }

  /**
   What the groups say of clusters with these sizes and weights: a server weighs its capacity in units of
   `average`, and the weighted sums run over all clusters up to each one.
   */
  ghost predicate Weighed(groups: seq<Group>, sizes: seq<nat>, weights: seq<nat>, average: real)
    requires |sizes| == |weights|
  {
    |groups| == |sizes| && forall c | 0 <= c < |groups| :: WeighedAt(groups[c], sizes, weights, average, c)
  }

  ghost predicate WeighedAt(g: Group, sizes: seq<nat>, weights: seq<nat>, average: real, c: nat)
    requires c < |sizes| == |weights|
  {
    && g.servers == sizes[c]
    && Times(g.weight, average) == weights[c] as real
    && Times(g.weightedServers, average) == ClusterCapacity(sizes[c], weights[c]) as real
    && Times(g.weightedCumulative, average) == TotalWeight(sizes, weights, c + 1) as real
  }

  lemma {:induction false} GroupsAreWeighed(sizes: seq<nat>, weights: seq<nat>, average: real, c: nat)
    requires c <= |sizes| == |weights| && average != 0.0
    ensures var groups := GroupsOf(sizes, weights, average, c);
            && (forall i | 0 <= i < c :: WeighedAt(groups[i], sizes, weights, average, i))
            && Times(WeightedBefore(groups, c), average) == TotalWeight(sizes, weights, c) as real
  {
    if c == 0 {
      ZeroTimes(average);
    } else {
      var groups, before := GroupsOf(sizes, weights, average, c), GroupsOf(sizes, weights, average, c - 1);
      GroupsAreWeighed(sizes, weights, average, c - 1);
      NormalizedScales(weights[c-1], average);
      CastProduct(sizes[c-1], weights[c-1]);
      ServersScale(Normalized(weights[c-1], average), sizes[c-1], average, weights[c-1] as real);
      SumScales(groups[c-1].weightedServers, WeightedBefore(before, c - 1), average);
      forall i | 0 <= i < c ensures WeighedAt(groups[i], sizes, weights, average, i) {
        if i < c - 1 { assert WeighedAt(before[i], sizes, weights, average, i) && groups[i] == before[i]; }
      }
    }
  }

  lemma ServersScale(weight: real, servers: nat, average: real, capacity: real)
    requires weight * average == capacity
    ensures Times(WeightedServers(weight, servers), average) == servers as real * capacity
  {
    assert (weight * servers as real) * average == servers as real * (weight * average);
  }

  lemma SumScales(x: real, y: real, s: real)
    ensures Times(x + y, s) == Times(x, s) + Times(y, s)
  {
  }

  /** In units of the average, all servers together weigh as much as there are servers. */
  lemma WeightedTotalIsServers(groups: seq<Group>, sizes: seq<nat>, weights: seq<nat>)
    requires |sizes| == |weights| > 0 && forall c | 0 <= c < |sizes| :: sizes[c] > 0 && weights[c] > 0
    requires Weighed(groups, sizes, weights, Average(sizes, weights))
    ensures groups[|groups|-1].weightedCumulative == ServersBefore(sizes, |sizes|) as real
  {
    var n := |groups|;
    assert WeighedAt(groups[n-1], sizes, weights, Average(sizes, weights), n - 1);
    AverageScales(sizes, weights);
    EqualParts(groups[n-1].weightedCumulative, ServersBefore(sizes, n) as real, Average(sizes, weights));
  }

  lemma EqualParts(x: real, y: real, s: real)
    requires s != 0.0 && Times(x, s) == Times(y, s)
    ensures x == y
  {
    CancelReal(x, y, s);
  }

  lemma AverageScales(sizes: seq<nat>, weights: seq<nat>)
    requires |sizes| == |weights| > 0 && forall c | 0 <= c < |sizes| :: sizes[c] > 0 && weights[c] > 0
    ensures Times(ServersBefore(sizes, |sizes|) as real, Average(sizes, weights))
         == TotalWeight(sizes, weights, |sizes|) as real
  {
    SumsPositive(sizes, weights, |sizes|);
  }

  lemma {:induction false} GroupsOfCumulative(sizes: seq<nat>, weights: seq<nat>, average: real, c: nat)
    requires c <= |sizes| == |weights| && average != 0.0
    ensures var groups := GroupsOf(sizes, weights, average, c);
            && Cumulative(groups) && Before(groups, c) == ServersBefore(sizes, c)
            && forall i | 0 <= i < c :: groups[i].servers == sizes[i]
  {
    if c > 0 {
      var groups, before := GroupsOf(sizes, weights, average, c), GroupsOf(sizes, weights, average, c - 1);
      GroupsOfCumulative(sizes, weights, average, c - 1);
      forall i | 0 <= i < c ensures CumulativeAt(groups, i) {
        assert Before(groups, i) == Before(before, i);
        if i < c - 1 { assert CumulativeAt(before, i); }
      }
    }
  }

  lemma {:induction false} BeforeIsServersBefore(sizes: seq<nat>, weights: seq<nat>, average: real, n: nat, c: nat)
    requires c <= n <= |sizes| == |weights| && average != 0.0
    ensures Before(GroupsOf(sizes, weights, average, n), c) == ServersBefore(sizes, c)
    decreases n
  {
    GroupsOfCumulative(sizes, weights, average, n);
    if c < n {
      BeforeIsServersBefore(sizes, weights, average, n - 1, c);
      assert Before(GroupsOf(sizes, weights, average, n), c) == Before(GroupsOf(sizes, weights, average, n - 1), c);
    }
  }

  /** The place i of the disk list lies in the block of servers of the disk's own cluster. */
  ghost predicate PlaceInBlock(disks: seq<Disk>, groups: seq<Group>, i: nat)
    requires i < |disks| && |groups| == |Kinds(disks)|
  {
    Before(groups, KindIndices(disks)[i]) <= i < Before(groups, KindIndices(disks)[i] + 1)
  }

  lemma PlaceIsOwnBlock(disks: seq<Disk>, average: real, i: nat)
    requires average != 0.0 && i < |disks|
    ensures PlaceInBlock(disks, GroupsOfDisks(disks, average), i) <==> InOwnBlock(KindIndices(disks), i)
  {
    var s, n := KindIndices(disks), |Kinds(disks)|;
    BeforeIsServersBefore(Sizes(s, n), Kinds(disks), average, n, s[i]);
    BeforeIsServersBefore(Sizes(s, n), Kinds(disks), average, n, s[i] + 1);
    BlocksCount(s, n, s[i]);
    BlocksCount(s, n, s[i] + 1);
  }

  /** The groups of a list of disks. */
  function GroupsOfDisks(disks: seq<Disk>, average: real): (groups: seq<Group>)
    requires average != 0.0
    ensures |groups| == |Kinds(disks)|
  {
    GroupsOf(Sizes(KindIndices(disks), |Kinds(disks)|), Kinds(disks), average, |Kinds(disks)|)
  }

  /**
   A server number is drawn within the block of a cluster but looked up by place in the list of disks:
   the disk found is of that cluster, for every number, exactly when the list is grouped by key.
   */
  lemma PlacesMatchClusters(disks: seq<Disk>, average: real)
    requires average != 0.0
    ensures (forall i | 0 <= i < |disks| :: PlaceInBlock(disks, GroupsOfDisks(disks, average), i))
       <==> Grouped(KindIndices(disks))
  {
    BlocksMatchIffGrouped(KindIndices(disks));
    if Grouped(KindIndices(disks)) {
      forall i | 0 <= i < |disks| ensures PlaceInBlock(disks, GroupsOfDisks(disks, average), i) {
        PlaceIsOwnBlock(disks, average, i);
      }
    } else {
      var i: nat :| i < |disks| && !InOwnBlock(KindIndices(disks), i);
      PlaceIsOwnBlock(disks, average, i);
    }
  }

  method AverageWeight(sizes: seq<nat>, weights: seq<nat>) returns (average: real)
    requires |sizes| == |weights| > 0 && forall c | 0 <= c < |sizes| :: sizes[c] > 0 && weights[c] > 0
    ensures average == Average(sizes, weights)
  {
    var servers, total := 0, 0.0;
    for c := 0 to |sizes|
      invariant servers == ServersBefore(sizes, c) && total == TotalWeight(sizes, weights, c) as real
      invariant c > 0 ==> servers > 0
    {
      servers := servers + sizes[c];
      total := total + ClusterCapacity(sizes[c], weights[c]) as real;
    }
    average := total / servers as real;
  }

  function Average(sizes: seq<nat>, weights: seq<nat>): (r: real)
    requires |sizes| == |weights| > 0 && forall c | 0 <= c < |sizes| :: sizes[c] > 0 && weights[c] > 0
    ensures r > 0.0
  {
    SumsPositive(sizes, weights, |sizes|);
    TotalWeight(sizes, weights, |sizes|) as real / ServersBefore(sizes, |sizes|) as real
  }

  lemma {:induction false} SumsPositive(sizes: seq<nat>, weights: seq<nat>, c: nat)
    requires 0 < c <= |sizes| == |weights| && forall c | 0 <= c < |sizes| :: sizes[c] > 0 && weights[c] > 0
    ensures ServersBefore(sizes, c) > 0 && TotalWeight(sizes, weights, c) > 0
  {
    ProductPositive(sizes[c-1], weights[c-1]);
    if c > 1 { SumsPositive(sizes, weights, c - 1); }
  }

  lemma ProductPositive(a: nat, b: nat)
    requires a > 0 && b > 0
    ensures ClusterCapacity(a, b) > 0
  {
  }

  method BuildGroups(sizes: seq<nat>, weights: seq<nat>, average: real) returns (groups: seq<Group>)
    requires |sizes| == |weights| && average != 0.0
    ensures groups == GroupsOf(sizes, weights, average, |sizes|)
  {
    groups := [];
    for c := 0 to |sizes|
      invariant groups == GroupsOf(sizes, weights, average, c)
    {
      var weight := Normalized(weights[c], average);
      var weighted := WeightedServers(weight, sizes[c]);
      var cumulative, weightedCumulative := sizes[c], weighted;
      if c > 0 {
        cumulative := cumulative + groups[c-1].cumulative;
        weightedCumulative := weightedCumulative + groups[c-1].weightedCumulative;
      }
      groups := groups + [Group(sizes[c], weight, weighted, cumulative, weightedCumulative)];
    }
  }

  lemma SizesCoverDisks(disks: seq<Disk>)
    ensures ServersBefore(Sizes(KindIndices(disks), |Kinds(disks)|), |Kinds(disks)|) == |disks|
  {
    BlocksCount(KindIndices(disks), |Kinds(disks)|, |Kinds(disks)|);
    CountBelowAll(KindIndices(disks), |Kinds(disks)|);
  }

  /** The groups of a list of disks: all of them together weigh as much as there are disks. */
  ghost predicate GroupsWeigh(groups: seq<Group>, sizes: seq<nat>, weights: seq<nat>, servers: nat) {
    && |groups| == |sizes| == |weights| > 0 && (forall c | 0 <= c < |sizes| :: sizes[c] > 0 && weights[c] > 0)
    && Weighed(groups, sizes, weights, Average(sizes, weights))
    && groups[|groups|-1].weightedCumulative == servers as real
  }

  lemma BuiltGroupsWeigh(sizes: seq<nat>, weights: seq<nat>)
    requires |sizes| == |weights| > 0 && forall c | 0 <= c < |sizes| :: sizes[c] > 0 && weights[c] > 0
    ensures GroupsWeigh(GroupsOf(sizes, weights, Average(sizes, weights), |sizes|), sizes, weights,
                ServersBefore(sizes, |sizes|))
  {
    var average := Average(sizes, weights);
    GroupsAreWeighed(sizes, weights, average, |sizes|);
    WeightedTotalIsServers(GroupsOf(sizes, weights, average, |sizes|), sizes, weights);
  }

  method SizeClusters(disks: seq<Disk>) returns (sizes: seq<nat>, weights: seq<nat>)
    requires disks != [] && forall i | 0 <= i < |disks| :: disks[i].capacity > 0
    ensures weights == Kinds(disks) && sizes == Sizes(KindIndices(disks), |weights|) && |weights| > 0
    ensures forall c | 0 <= c < |sizes| :: sizes[c] > 0 && weights[c] > 0
  {
    var index;
    index, weights := NumberKinds(disks);
    var clusters := FillClusters(disks, index, |weights|);
    sizes := seq(|weights|, c requires 0 <= c < |weights| => |clusters[c]|);
    assert sizes == Sizes(KindIndices(disks), |weights|);
    KindsPositive(disks);
  }

  // ---- the policy ----

  class DistRUSHr {
    const copies: nat
    var groups: seq<Group>
    var allDisks: seq<Disk>
    /** The scratch area of the draws; the identity between calls. */
    var choices: array<nat>

    ghost predicate Valid()
      reads this, choices
    {
      && Cumulative(groups) && groups != [] && HoldsEach(groups, copies)
      && Before(groups, |groups|) == |allDisks| == choices.Length
      && choices[..] == Identity(choices.Length)
    }

    constructor (copies: nat)
      ensures this.copies == copies && fresh(choices)
    {
      this.copies := copies;
      groups, allDisks := [], [];
      choices := new nat[0];
    }

    /** Groups the disks by the low 32 bits of their capacity; refuses a cluster smaller than the number of copies. */
    method SetDisks(disks: seq<Disk>) returns (ok: bool)
      requires disks != [] && forall i | 0 <= i < |disks| :: disks[i].capacity > 0
      modifies this
      ensures var n := |Kinds(disks)|;
              var sizes := Sizes(KindIndices(disks), n);
              && (ok <==> forall c | 0 <= c < n :: sizes[c] >= copies)
              && (forall c | 0 <= c < n :: sizes[c] > 0 && Kinds(disks)[c] > 0)
              && n > 0
              && (ok ==> Valid() && fresh(choices) && allDisks == disks
                         && groups == GroupsOf(sizes, Kinds(disks), Average(sizes, Kinds(disks)), n)
                         && GroupsWeigh(groups, sizes, Kinds(disks), |disks|))
      ensures !ok ==> unchanged(this)
    {
      var sizes, weights := SizeClusters(disks);
      ok := forall c | 0 <= c < |sizes| :: sizes[c] >= copies;
      if !ok { return; }
      var average := AverageWeight(sizes, weights);
      groups := BuildGroups(sizes, weights, average);
      allDisks := disks;
      GroupsCoverDisks(disks, weights, average);
      BuiltGroupsWeigh(sizes, weights);
      SizesCoverDisks(disks);
      choices := new nat[groups[|groups|-1].cumulative](p => p);
    }

    /**
     Places the replicas. The run stays inside the scratch area exactly when the draws it makes are
     places; then the first R servers are different indices of disks, and the scratch area is as before.
     */
    method RUSHr(servers: array<nat>, key: int, replicas: nat) returns (inside: bool)
      requires Valid() && replicas <= copies && replicas <= servers.Length && servers != choices
      modifies servers, choices
      ensures inside <==> Drawable(groups, key, |groups|, replicas)
      ensures inside ==> choices[..] == old(choices[..])
      ensures inside
              ==> Inside(servers[..replicas]) == Assigned(BlocksOf(groups, choices.Length, key), |groups|, replicas)
      ensures inside ==> Distinct(servers[..replicas]) && Within(servers[..replicas], 0, |allDisks|)
    {
      ghost var blocks := BlocksOf(groups, choices.Length, key);
      GroupsFit(groups);
      BlocksAreSound(groups, choices.Length, key);
      AssignedIsSound(groups, blocks, |groups|, replicas);
      assert BlocksFor(groups, choices.Length, key, blocks);
      InsideExactly(groups, choices.Length, key, blocks, |groups|, replicas);
      inside := ServeClusters(choices, servers, groups, key, replicas, blocks);
    }

    /** One disk per copy, on different places of the list, unless a draw leaves the scratch area. */
    method PlaceExtent(position: int) returns (inside: bool, used: seq<Disk>, ghost servers: seq<nat>)
      requires Valid()
      modifies choices
      ensures inside <==> Drawable(groups, position, |groups|, copies)
      ensures inside ==> Valid() && |used| == copies == |servers| && Distinct(servers)
      ensures inside ==> forall i | 0 <= i < copies :: servers[i] < |allDisks| && used[i] == allDisks[servers[i]]
    {
      var places := new nat[copies];
      inside := RUSHr(places, position, copies);
      used, servers := [], [];
      if inside {
        servers := places[..];
        assert places[..copies] == servers;
        used := DisksAt(allDisks, places[..]);
      }
    }
  }

  method ServeClusters(choices: array<nat>, servers: array<nat>, groups: seq<Group>, key: int, replicas: nat,
                       ghost blocks: (nat, nat) -> Given) returns (inside: bool)
    requires HoldsEach(groups, replicas) && FitsScratch(groups, choices.Length)
    requires replicas <= servers.Length && servers != choices
    requires choices[..] == Identity(choices.Length) && BlocksFor(groups, choices.Length, key, blocks)
    requires var a := Assigned(blocks, |groups|, replicas); a.Inside? ==> |a.servers| == replicas
    modifies servers, choices
    ensures inside <==> Assigned(blocks, |groups|, replicas).Inside?
    ensures inside ==> choices[..] == old(choices[..])
    ensures inside ==> Inside(servers[..replicas]) == Assigned(blocks, |groups|, replicas)
  {
    var remaining: nat := replicas;
    var at: nat := 0;
    var c := |groups|;
    ghost var done := [];
    ghost var target := Assigned(blocks, |groups|, replicas);
    assert target == Behind(Inside(done), target);
    while c > 0 && remaining > 0
      invariant 0 <= c <= |groups| && at + remaining == replicas && remaining <= replicas
      invariant choices[..] == old(choices[..])
      invariant servers[..at] == done && target == Behind(Inside(done), Assigned(blocks, c, remaining))
    {
      ghost var block := blocks(c - 1, remaining);
      AssignedStep(blocks, c, remaining, done);
      c := c - 1;
      var given, drawn := ServeCluster(choices, servers, groups, key, c, remaining, at, blocks);
      if !drawn { return false; }
      JoinSlices(servers[..], at, at + given, done, block.servers);
      done := done + block.servers;
      remaining := remaining - given;
      at := at + given;
    }
    inside := true;
    assert done + [] == done;
  }

  lemma AssignedStep(blocks: (nat, nat) -> Given, c: nat, remaining: nat, done: seq<nat>)
    requires c > 0 && remaining > 0
    ensures var block := blocks(c - 1, remaining);
            Behind(Inside(done), Assigned(blocks, c, remaining)) ==
            if block.Outside? then Outside
            else Behind(Inside(done + block.servers), Assigned(blocks, c - 1, LeftAfter(block, remaining)))
  {
    var block := blocks(c - 1, remaining);
    if block.Inside? {
      var rest := Assigned(blocks, c - 1, LeftAfter(block, remaining));
      if rest.Inside? {
        assert (done + block.servers) + rest.servers == done + (block.servers + rest.servers);
      }
    }
  }

  lemma JoinSlices(a: seq<nat>, i: nat, j: nat, head: seq<nat>, tail: seq<nat>)
    requires i <= j <= |a| && a[..i] == head && a[i..j] == tail
    ensures a[..j] == head + tail
  {
  }

  /** The replicas of one cluster, written from `at` on, if its draws are places. */
  method ServeCluster(choices: array<nat>, servers: array<nat>, groups: seq<Group>, key: int, c: nat, remaining: nat,
                      at: nat, ghost blocks: (nat, nat) -> Given) returns (given: nat, drawn: bool)
    requires c < |groups| && 0 < remaining <= groups[c].servers <= choices.Length
    requires at + remaining <= servers.Length && servers != choices
    requires choices[..] == Identity(choices.Length) && BlocksFor(groups, choices.Length, key, blocks)
    modifies servers, choices
    ensures given <= remaining && (drawn <==> blocks(c, remaining).Inside?)
    ensures drawn ==> choices[..] == old(choices[..]) && servers[..at] == old(servers[..at])
    ensures drawn ==> Inside(servers[at..at+given]) == blocks(c, remaining)
  {
    assert BlockFor(groups, choices.Length, key, blocks, c, remaining);
    var gen := new Generator(key);
    gen.JumpAhead((c + 2) * 7);
    given := Allot(groups, key, c, remaining, gen);
    ghost var s := gen.Current();
    drawn := true;
    if given > 0 {
      drawn := DrawKOfN(choices, servers, at, given, groups[c].servers, gen);
      if !drawn { return; }
    }
    assert servers[at..at+given] == Drawn(choices.Length, groups[c].servers, given, s);
    assert servers[..at] == old(servers[..at]);
    OffsetPlaces(servers, at, given, if c > 0 then groups[c-1].cumulative else 0);
  }

  /** How many replicas the cluster gets. */
  method Allot(groups: seq<Group>, key: int, c: nat, remaining: nat, gen: Generator) returns (given: nat)
    requires c < |groups| && gen.Current() == StateAt(key, c)
    modifies gen
    ensures given == Count(groups, key, c, remaining)
    ensures gen.Current() == DrawState(groups, key, c, remaining)
  {
    var previous := 0;
    if c > 0 { previous := groups[c-1].cumulative; }
    var mandatory := 0;
    if previous < remaining { mandatory := remaining - previous; }
    var sampled := ISample(remaining - mandatory, groups[c].weightedServers - mandatory as real,
                           groups[c].weightedCumulative - mandatory as real, groups[c].weight, gen);
    given := mandatory + sampled;
  }

  method OffsetPlaces(servers: array<nat>, at: nat, count: nat, previous: nat)
    requires at + count <= servers.Length
    modifies servers
    ensures servers[..at] == old(servers[..at])
    ensures servers[at..at+count] == Offset(old(servers[at..at+count]), previous)
  {
    for i := 0 to count
      invariant servers[..at] == old(servers[..at])
      invariant forall q | at <= q < at + count :: servers[q] == old(servers[q]) + if q < at + i then previous else 0
    {
      servers[at+i] := servers[at+i] + previous;
    }
  }

  lemma GroupsFit(groups: seq<Group>)
    requires Cumulative(groups)
    ensures FitsScratch(groups, Before(groups, |groups|))
  {
    forall c | 0 <= c < |groups| ensures groups[c].servers <= Before(groups, |groups|) {
      CumulativeGrows(groups, c + 1, |groups|);
      assert CumulativeAt(groups, c);
    }
  }

  lemma {:induction false} CumulativeGrows(groups: seq<Group>, c: nat, d: nat)
    requires Cumulative(groups) && c <= d <= |groups|
    ensures Before(groups, c) <= Before(groups, d)
    decreases d
  {
    if c < d {
      CumulativeGrows(groups, c, d - 1);
      assert CumulativeAt(groups, d - 1);
    }
  }

  lemma {:induction false} KindsPositive(disks: seq<Disk>)
    requires disks != [] && forall i | 0 <= i < |disks| :: disks[i].capacity > 0
    ensures |Kinds(disks)| > 0
    ensures forall c | 0 <= c < |Kinds(disks)| :: CountOf(KindIndices(disks), c) > 0 && Kinds(disks)[c] > 0
  {
    assert KindIndex(disks, 0) < |Kinds(disks)|;
    forall c | 0 <= c < |Kinds(disks)| ensures CountOf(KindIndices(disks), c) > 0 && Kinds(disks)[c] > 0 {
      EveryKindOccurs(disks, c);
      KindHasKey(disks, c);
    }
  }

  lemma {:induction false} GroupsCoverDisks(disks: seq<Disk>, weights: seq<nat>, average: real)
    requires weights == Kinds(disks) && average != 0.0
    ensures var sizes := Sizes(KindIndices(disks), |weights|);
            var groups := GroupsOf(sizes, weights, average, |weights|);
            && Cumulative(groups) && Before(groups, |groups|) == |disks|
            && forall c | 0 <= c < |groups| :: groups[c].servers == sizes[c]
  {
    var s := KindIndices(disks);
    GroupsOfCumulative(Sizes(s, |weights|), weights, average, |weights|);
    BlocksCount(s, |weights|, |weights|);
    CountBelowAll(s, |weights|);
  }
}
