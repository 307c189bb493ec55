/**
 Random Slicing: the interval table over the block space [0, V), its creation for a first list of
 disks, and its extension by further lists. Valid() holds between any two calls.
 */
module RandSlice {
  import opened Sequences
  import opened Disks
  import opened Sums
  import opened Blocks
  import opened FreeSpace
  import opened SegmentTree
  import opened Quotas
  import opened Collect
  import opened Reuse
  import opened Redistribution
  import opened Handover

  datatype Option<T> = None | Some(value: T)

  function Capacities(disks: seq<Disk>): (r: seq<Request>)
    ensures |r| == |disks|
    ensures forall i | 0 <= i < |r| :: r[i] == Request(disks[i].id, disks[i].capacity)
  {
    seq(|disks|, i requires 0 <= i < |disks| => Request(disks[i].id, disks[i].capacity))
  }

  function Shares(disks: seq<Disk>, V: nat, C: nat): (r: seq<Request>)
    requires C > 0
    ensures |r| == |disks|
    ensures forall i | 0 <= i < |r| :: r[i] == Request(disks[i].id, Quota(disks[i].capacity, V, C))
  {
    seq(|disks|, i requires 0 <= i < |disks| => Request(disks[i].id, Quota(disks[i].capacity, V, C)))
  }

  function Total(disks: seq<Disk>): nat { SumSeq(Sizes(Capacities(disks))) }

  function ShareTotal(disks: seq<Disk>, V: nat, C: nat): nat
    requires C > 0
  {
    SumSeq(Sizes(Shares(disks, V, C)))
  }

  lemma TotalStep(disks: seq<Disk>, i: nat, V: nat, C: nat)
    requires i < |disks| && C > 0
    ensures Total(disks[..i+1]) == Total(disks[..i]) + disks[i].capacity
    ensures ShareTotal(disks[..i+1], V, C) == ShareTotal(disks[..i], V, C) + Quota(disks[i].capacity, V, C)
    ensures Capacities(disks[..i+1]) == Capacities(disks[..i]) + [Request(disks[i].id, disks[i].capacity)]
    ensures Shares(disks[..i+1], V, C)
            == Shares(disks[..i], V, C) + [Request(disks[i].id, Quota(disks[i].capacity, V, C))]
  {
    var d := disks[..i+1];
    assert d[..i] == disks[..i];
    assert Sizes(Capacities(d))[..i] == Sizes(Capacities(disks[..i]));
    assert Sizes(Shares(d, V, C))[..i] == Sizes(Shares(disks[..i], V, C));
  }

  lemma {:induction false} ShareTotalMonotone(disks: seq<Disk>, i: nat, V: nat, C: nat)
    requires i <= |disks| && C > 0
    ensures ShareTotal(disks[..i], V, C) <= ShareTotal(disks, V, C)
    decreases |disks| - i
  {
    if i < |disks| {
      TotalStep(disks, i, V, C);
      ShareTotalMonotone(disks, i + 1, V, C);
    } else {
      assert disks[..i] == disks;
    }
  }

  /** Adding disks to the disk map and their shares to the share map. */
  lemma {:induction false} SharesAfter(known: map<nat, nat>, added: seq<Disk>, V: nat)
    requires Fresh(known, Capacities(added)) && SumMap(known) + Total(added) > 0
    ensures var disks := Extend(known, Capacities(added));
            var C := SumMap(disks);
            && C == SumMap(known) + Total(added) && |disks| == |known| + |added|
            && var kept := SumMap(QuotaMap(known, V, C));
               kept + ShareTotal(added, V, C) <= V < kept + ShareTotal(added, V, C) + |disks|
  {
    var disks := Extend(known, Capacities(added));
    ExtendSum(known, Capacities(added));
    var C := SumMap(disks);
    ExtendQuotas(known, added, V, C);
    ExtendSum(QuotaMap(known, V, C), Shares(added, V, C));
    QuotaLoss(disks, V);
  }

  lemma {:induction false} ExtendQuotas(known: map<nat, nat>, added: seq<Disk>, V: nat, C: nat)
    requires C > 0 && Fresh(known, Capacities(added))
    ensures Fresh(QuotaMap(known, V, C), Shares(added, V, C))
    ensures QuotaMap(Extend(known, Capacities(added)), V, C) == Extend(QuotaMap(known, V, C), Shares(added, V, C))
  {
    var caps, shares := Capacities(added), Shares(added, V, C);
    if added != [] {
      var n := |added| - 1;
      assert caps[..n] == Capacities(added[..n]) && shares[..n] == Shares(added[..n], V, C);
      ExtendQuotas(known, added[..n], V, C);
    }
  }

  /**
   Every partition holds its rounded share; only the last one of the latest list may hold more, by less than
   one block per disk.
   */
  ghost predicate Rounded(disks: map<nat, nat>, partitions: map<nat, nat>, V: nat, C: nat, last: nat)
    requires C > 0
  {
    && partitions.Keys == disks.Keys && last in disks
    && (forall id | id in disks && id != last :: partitions[id] == Quota(disks[id], V, C))
    && Quota(disks[last], V, C) <= partitions[last] < Quota(disks[last], V, C) + |disks|
  }

  /** What each old partition must give up in a system of total capacity C. */
  function Losses(partitions: map<nat, nat>, disks: map<nat, nat>, V: nat, C: nat): map<nat, nat>
    requires C > 0
  {
    map p | p in partitions && p in disks :: Excess(partitions[p], Quota(disks[p], V, C))
  }

  /** Everything the object stores once disks are known; `last` is the last disk of the latest list. */
  datatype State = State(V: nat, disks: map<nat, nat>, partitions: map<nat, nat>, capacity: nat,
                         leaves: seq<Leaf>, owners: seq<nat>, last: nat)

  /** The interval table tiles [0, V) among known disks, and the stored sizes are exactly what each disk owns. */
  ghost predicate Consistent(s: State) {
    && s.capacity == SumMap(s.disks) && s.capacity > 0
    && |s.owners| == s.V && Represents(s.leaves, s.owners)
    && (forall x | 0 <= x < s.V :: s.owners[x] in s.disks)
    && (forall id | id in s.partitions :: s.partitions[id] == Owned(s.owners, id))
    && Rounded(s.disks, s.partitions, s.V, s.capacity, s.last)
  }

  /** The rounding remainder goes to the last request of the list. */
  function TopUp(shares: seq<Request>, r: nat): seq<Request>
    requires shares != []
  {
    var n := |shares| - 1;
    shares[n := Request(shares[n].id, shares[n].size + r)]
  }

  /** What the disks of the new list are to receive. */
  ghost function Requests(losses: map<nat, nat>, added: seq<Disk>, V: nat, C: nat): (r: seq<Request>)
    requires C > 0 && added != []
  {
    TopUp(Shares(added, V, C), Excess(SumMap(losses), ShareTotal(added, V, C)))
  }

  /** How free space is collected and how it is handed out. */
  datatype Strategy = Strategy(evenOdd: bool, sorted: bool)

  /** One step of growth: t is s after the disks of `added` joined. */
  ghost predicate Grows(s: State, t: State, added: seq<Disk>, how: Strategy) {
    && added != [] && t.V == s.V && s.partitions.Keys == s.disks.Keys
    && t.disks == Extend(s.disks, Capacities(added))
    && t.capacity == s.capacity + Total(added) && t.capacity > 0
    && t.last == added[|added|-1].id
    && Represents(t.leaves, t.owners)
    && t.partitions.Keys == t.disks.Keys
    && (forall p | p in s.disks :: p in t.disks && t.partitions[p] == Quota(s.disks[p], s.V, t.capacity))
    && var losses := Losses(s.partitions, s.disks, s.V, t.capacity);
       var requests := Requests(losses, added, s.V, t.capacity);
       && (forall k | 0 <= k < |requests| ::
          requests[k].id in t.disks && t.partitions[requests[k].id] == requests[k].size)
       && Redistributed(s.owners, t.owners, losses, requests)
       && MovedBlocksFollow(how.evenOdd, s.leaves, s.owners, t.owners, losses)
       && InTurn(how.sorted, s.owners, t.owners, requests)
  }

  /** The old partitions can spare the shares of the disks of `added` in a system of total capacity C. */
  ghost predicate CanMove(disks: map<nat, nat>, partitions: map<nat, nat>, owners: seq<nat>, added: seq<Disk>, V: nat,
                          C: nat) {
    && added != [] && C > 0 && |owners| == V && partitions.Keys == disks.Keys && Fresh(disks, Capacities(added))
    && (forall x | 0 <= x < V :: owners[x] in disks)
    && (forall p | p in disks :: Quota(disks[p], V, C) <= partitions[p] == Owned(owners, p))
    && ShareTotal(added, V, C) <= SumMap(Losses(partitions, disks, V, C))
  }

  /** The blocks that changed owner are those that the collection strategy picks for these quotas. */
  ghost predicate MovedBlocksFollow(evenOdd: bool, leaves: seq<Leaf>, before: seq<nat>, after: seq<nat>,
                                    quotas: map<nat, nat>) {
    && |after| == |before|
    && Represents(leaves, before)
    && (forall k | 0 <= k < |leaves| - 1 :: leaves[k].value in quotas)
    && if evenOdd then
         forall i | 0 <= i < |leaves| - 1 :: SegmentFollows(leaves, before, after, quotas, i)
       else
         forall x | 0 <= x < |before| :: after[x] != before[x] <==> TakesFirst(before, quotas, x)
  }

  /** The collected space is what the collection strategy picks for these quotas. */
  ghost predicate Picks(evenOdd: bool, leaves: seq<Leaf>, owners: seq<nat>, quotas: map<nat, nat>,
                        free: seq<Interval>) {
    && Represents(leaves, owners)
    && (forall k | 0 <= k < |leaves| - 1 :: leaves[k].value in quotas)
    && if evenOdd then forall i | 0 <= i < |leaves| - 1 :: Follows(leaves, owners, quotas, free, i)
       else PlainTaken(owners, quotas, free, |owners|)
  }

  lemma MovedFollow(evenOdd: bool, leaves: seq<Leaf>, before: seq<nat>, after: seq<nat>, quotas: map<nat, nat>,
                    free: seq<Interval>)
    requires Picks(evenOdd, leaves, before, quotas, free) && |after| == |before|
    requires forall x | 0 <= x < |before| :: after[x] != before[x] <==> InFree(free, x)
    ensures MovedBlocksFollow(evenOdd, leaves, before, after, quotas)
  {
    if evenOdd {
      forall i | 0 <= i < |leaves| - 1 ensures SegmentFollows(leaves, before, after, quotas, i) {
        SegmentBounds(leaves, before, i);
        assert Follows(leaves, before, quotas, free, i);
      }
    }
  }

  class DistRandSlice {
    const V: nat
    const useEvenOddCollection: bool
    const useSortedAssimilation: bool
    var disks: map<nat, nat>
    var numDisks: nat
    var partitions: map<nat, nat>
    var numPartitions: nat
    var tree: FlatSegmentTree?
    var capacity: nat
    /** The last disk of the latest list, which absorbs the rounding. */
    ghost var last: nat

    ghost predicate Valid()
      reads this, tree
    {
      if tree == null then
        disks == map[] && partitions == map[] && capacity == 0 && numDisks == 0 && numPartitions == 0
      else
        && tree.Valid() && tree.treeBuilt && tree.max == V
        && numDisks == |disks| && numPartitions == |partitions|
        && Consistent(Snapshot())
    }

    ghost function HowTo(): Strategy { Strategy(useEvenOddCollection, useSortedAssimilation) }

    ghost function Snapshot(): State
      requires tree != null
      reads this, tree
    {
      State(V, disks, partitions, capacity, tree.leaves, tree.owners, last)
    }

    constructor (V: nat, evenOdd: bool, sortFree: bool)
      ensures Valid() && tree == null
      ensures this.V == V && useEvenOddCollection == evenOdd && useSortedAssimilation == sortFree
    {
      this.V := V;
      useEvenOddCollection := evenOdd;
      useSortedAssimilation := sortFree;
      disks, numDisks := map[], 0;
      partitions, numPartitions := map[], 0;
      tree := null;
      capacity := 0;
    }

    method SetDisks(newDisks: seq<Disk>)
      requires Valid() && newDisks != [] && Fresh(disks, Capacities(newDisks))
      requires tree == null ==> 0 < Total(newDisks) <= V
      modifies this, tree
      ensures Valid() && tree != null
      ensures old(tree) == null ==> fresh(tree) && disks == Extend(map[], Capacities(newDisks))
      ensures old(tree) == null ==> CutInOrder(newDisks, V, Total(newDisks), tree.owners)
      ensures old(tree) != null
              ==> tree == old(tree) && Grows(old(Snapshot()), Snapshot(), newDisks, HowTo())
    {
      if tree == null {
        CreatePartitions(newDisks);
      } else {
        AddPartitions(newDisks);
      }
    }

    method CreatePartitions(newDisks: seq<Disk>)
      requires Valid() && tree == null && newDisks != [] && Fresh(disks, Capacities(newDisks))
      requires 0 < Total(newDisks) <= V
      modifies this
      ensures Valid() && tree != null && fresh(tree)
      ensures disks == Extend(map[], Capacities(newDisks))
      ensures last == newDisks[|newDisks|-1].id
      ensures CutInOrder(newDisks, V, Total(newDisks), tree.owners)
    {
      var total := CapacityOf(newDisks);
      var intervals, table;
      ghost var t;
      intervals, table, t := TileSpace(newDisks, total);
      Commit(newDisks, [], total);
      partitions := table;
      numPartitions := |partitions|;
      tree := intervals;
      assert Snapshot() == t;
    }

    /** A new interval table over [0, V) for the first disks, with the sizes of their intervals. */
    method TileSpace(newDisks: seq<Disk>, total: nat)
      returns (intervals: FlatSegmentTree, table: map<nat, nat>, ghost t: State)
      requires newDisks != [] && Fresh(map[], Capacities(newDisks)) && total == Total(newDisks) && 0 < total <= V
      ensures fresh(intervals) && intervals.Valid() && intervals.treeBuilt && intervals.max == V
      ensures t == State(V, Extend(map[], Capacities(newDisks)), table, total, intervals.leaves, intervals.owners,
                         newDisks[|newDisks|-1].id)
      ensures Consistent(t) && |t.disks| == |newDisks| && CutInOrder(newDisks, V, total, intervals.owners)
    {
      SharesFit(newDisks, V);
      intervals := new FlatSegmentTree(V, newDisks[0].id);
      ghost var parts;
      table, parts := SlicePartitions(intervals, newDisks, total);
      intervals.BuildTree();
      FilledConsistent(newDisks, V, intervals.leaves, intervals.owners, parts);
      t := State(V, Extend(map[], Capacities(newDisks)), table, total, intervals.leaves, intervals.owners,
          newDisks[|newDisks|-1].id);
    }

    /** Cuts [0, V) into one interval per disk, in list order. */
    method SlicePartitions(intervals: FlatSegmentTree, newDisks: seq<Disk>, total: nat)
      returns (table: map<nat, nat>, ghost parts: seq<Request>)
      requires intervals.Valid() && intervals.max == V
      requires newDisks != [] && Fresh(map[], Capacities(newDisks)) && total > 0
      requires ShareTotal(newDisks, V, total) <= V
      modifies intervals
      ensures intervals.Valid()
      ensures |parts| == |newDisks| && table == Extend(map[], parts)
      ensures Filled(newDisks, V, total, intervals.owners, V, parts)
      ensures CutInOrder(newDisks, V, total, intervals.owners)
    {
      table, parts := map[], [];
      var lastIntervalEnd := 0;
      for i := 0 to |newDisks|
        invariant intervals.Valid()
        invariant lastIntervalEnd == Boundary(newDisks, V, total, i)
        invariant CutUpTo(newDisks, V, total, intervals.owners, i)
        invariant |parts| == i && table == Extend(map[], parts)
        invariant Filled(newDisks, V, total, intervals.owners, lastIntervalEnd, parts)
      {
        lastIntervalEnd, table, parts := SliceNext(intervals, newDisks, i, lastIntervalEnd, total, table, parts);
      }
    }

    /** Cuts the interval of disk i and enters its size. */
    method SliceNext(intervals: FlatSegmentTree, newDisks: seq<Disk>, i: nat, i0: nat, total: nat,
                     table: map<nat, nat>, ghost parts: seq<Request>)
      returns (i1: nat, table': map<nat, nat>, ghost parts': seq<Request>)
      requires intervals.Valid() && intervals.max == V && i == |parts| < |newDisks|
               && Fresh(map[], Capacities(newDisks))
      requires total > 0 && ShareTotal(newDisks, V, total) <= V && i0 == Boundary(newDisks, V, total, i)
      requires table == Extend(map[], parts) && Filled(newDisks, V, total, intervals.owners, i0, parts)
      requires CutUpTo(newDisks, V, total, intervals.owners, i)
      modifies intervals
      ensures intervals.Valid() && |parts'| == i + 1 && table' == Extend(map[], parts')
      ensures i1 == Boundary(newDisks, V, total, i + 1) && CutUpTo(newDisks, V, total, intervals.owners, i + 1)
      ensures Filled(newDisks, V, total, intervals.owners, i1, parts')
    {
      var partId := newDisks[i].id;
      ghost var before := intervals.owners;
      i1 := CutInterval(newDisks, i, i0, total, before, parts);
      table', parts' := EnterSlice(table, parts, partId, i1 - i0);
      intervals.InsertFront(i0, i1, partId);
      assert intervals.owners == Fill(before, i0, i1, partId);
    }

    /** The end of the interval of disk i, with which the first i + 1 disks will have received all up to there. */
    method CutInterval(newDisks: seq<Disk>, i: nat, i0: nat, total: nat, ghost before: seq<nat>,
                       ghost parts: seq<Request>)
      returns (i1: nat)
      requires i == |parts| < |newDisks| && Fresh(map[], Capacities(newDisks)) && |before| == V
      requires total > 0 && ShareTotal(newDisks, V, total) <= V && i0 == Boundary(newDisks, V, total, i)
      requires Filled(newDisks, V, total, before, i0, parts) && CutUpTo(newDisks, V, total, before, i)
      ensures i0 <= i1 <= V && i1 == Boundary(newDisks, V, total, i + 1)
      ensures CutUpTo(newDisks, V, total, Fill(before, i0, i1, newDisks[i].id), i + 1)
      ensures Filled(newDisks, V, total, Fill(before, i0, i1, newDisks[i].id), i1,
                     parts + [Request(newDisks[i].id, i1 - i0)])
    {
      i1 := IntervalEnd(newDisks, i, i0, total);
      FilledNext(newDisks, i, V, total, before, i0, i1, parts);
      CutNext(newDisks, i, V, total, before, parts, i0, i1);
    }

    /** Where the interval of disk i ends: its share further on, and at the end of the space for the last disk. */
    method IntervalEnd(newDisks: seq<Disk>, i: nat, i0: nat, total: nat) returns (i1: nat)
      requires i < |newDisks| && total > 0 && ShareTotal(newDisks, V, total) <= V
      requires i0 == ShareTotal(newDisks[..i], V, total)
      ensures i1 == if i == |newDisks| - 1 then V else i0 + Quota(newDisks[i].capacity, V, total)
      ensures i < |newDisks| - 1 ==> i1 == ShareTotal(newDisks[..i+1], V, total)
      ensures i0 <= i1 <= V
    {
      TotalStep(newDisks, i, V, total);
      ShareTotalMonotone(newDisks, i + 1, V, total);
      i1 := i0 + newDisks[i].capacity * V / total;
      if i == |newDisks| - 1 || i1 > V {
        i1 := V;
      }
    }

    method EnterSlice(table: map<nat, nat>, ghost parts: seq<Request>, id: nat, size: nat)
      returns (table': map<nat, nat>, ghost parts': seq<Request>)
      requires table == Extend(map[], parts)
      ensures parts' == parts + [Request(id, size)] && table' == Extend(map[], parts')
    {
      table', parts' := table[id := size], parts + [Request(id, size)];
      assert parts'[..|parts|] == parts;
    }

    method AddPartitions(newDisks: seq<Disk>)
      requires Valid() && tree != null && newDisks != [] && Fresh(disks, Capacities(newDisks))
      modifies this, tree
      ensures Valid() && tree == old(tree)
      ensures Grows(old(Snapshot()), Snapshot(), newDisks, HowTo())
    {
      ghost var s := Snapshot();
      var capacityAdded := CapacityOf(newDisks);
      var newCapacity := capacity + capacityAdded;
      var newPartitions;
      ghost var t;
      newPartitions, t := MoveBlocks(newDisks, newCapacity, s);
      Commit(newDisks, newPartitions, newCapacity);
      Restored(t);
    }

    lemma Restored(t: State)
      requires tree != null && tree.Valid() && tree.treeBuilt && tree.max == V
      requires numDisks == |disks| && numPartitions == |partitions| && Snapshot() == t && Consistent(t)
      ensures Valid()
    {
    }

    method MoveBlocks(newDisks: seq<Disk>, newCapacity: nat, ghost s: State)
      returns (newPartitions: seq<Request>, ghost t: State)
      requires tree != null && tree.Valid() && tree.max == V && s == Snapshot() && Consistent(s)
      requires newDisks != [] && Fresh(disks, Capacities(newDisks)) && newCapacity == capacity + Total(newDisks)
      modifies this`partitions, tree
      ensures tree.Valid() && tree.treeBuilt
      ensures t == NextState(s, newDisks, newCapacity, Extend(partitions, newPartitions), tree.leaves, tree.owners)
      ensures Grows(s, t, newDisks, HowTo()) && Consistent(t)
      ensures |t.disks| == |s.disks| + |newDisks| && |t.partitions| == |s.disks| + |newPartitions|
    {
      GrowthPossible(s, newDisks, newCapacity);
      RequestsFit(disks, Losses(partitions, disks, V, newCapacity), newDisks, V, newCapacity);
      var oldPartitions, requests := PlanMove(newDisks, newCapacity);
      newPartitions := Redistribute(oldPartitions, requests);
      GrowthStep(s, newDisks, HowTo(), newCapacity, oldPartitions, requests, newPartitions, tree.leaves,
          tree.owners);
      t := NextState(s, newDisks, newCapacity, Extend(partitions, newPartitions), tree.leaves, tree.owners);
      GrowthKeepsConsistent(s, t, newDisks, HowTo());
    }

    /** What each old partition gives and each new one is to receive; the last new one absorbs the rounding. */
    method PlanMove(newDisks: seq<Disk>, newCapacity: nat)
      returns (oldPartitions: map<nat, nat>, newPartitions: seq<Request>)
      requires newDisks != [] && newCapacity > 0 && partitions.Keys == disks.Keys
      requires forall p | p in disks :: Quota(disks[p], V, newCapacity) <= partitions[p]
      requires ShareTotal(newDisks, V, newCapacity) <= SumMap(Losses(partitions, disks, V, newCapacity))
      modifies this`partitions
      ensures partitions == QuotaMap(disks, V, newCapacity)
      ensures oldPartitions == Losses(old(partitions), disks, V, newCapacity)
      ensures newPartitions == Requests(oldPartitions, newDisks, V, newCapacity)
    {
      var numBlocksToRemove, numBlocksToAdd;
      oldPartitions, numBlocksToRemove := ShrinkPartitions(newCapacity);
      newPartitions, numBlocksToAdd := SharesOf(newDisks, newCapacity);
      if numBlocksToRemove != numBlocksToAdd {
        var r: nat := numBlocksToRemove - numBlocksToAdd;
        var n := |newPartitions| - 1;
        newPartitions := newPartitions[n := Request(newPartitions[n].id, newPartitions[n].size + r)];
      }
    }

    /** Enters the new disks and their partitions. */
    method Commit(newDisks: seq<Disk>, newPartitions: seq<Request>, newCapacity: nat)
      requires newDisks != []
      modifies this`disks, this`numDisks, this`partitions, this`numPartitions, this`capacity, this`last
      ensures disks == Extend(old(disks), Capacities(newDisks)) && numDisks == old(numDisks) + |newDisks|
      ensures partitions == Extend(old(partitions), newPartitions)
              && numPartitions == old(numPartitions) + |newPartitions|
      ensures capacity == newCapacity && last == newDisks[|newDisks|-1].id
    {
      EnterDisks(newDisks);
      numDisks := numDisks + |newDisks|;
      EnterPartitions(newPartitions);
      numPartitions := numPartitions + |newPartitions|;
      capacity := newCapacity;
      last := newDisks[|newDisks|-1].id;
    }

    method CapacityOf(newDisks: seq<Disk>) returns (added: nat)
      ensures added == Total(newDisks)
    {
      added := 0;
      for i := 0 to |newDisks|
        invariant added == Total(newDisks[..i])
      {
        TotalStep(newDisks, i, 0, 1);
        added := added + newDisks[i].capacity;
      }
      assert newDisks[..|newDisks|] == newDisks;
    }

    method SharesOf(newDisks: seq<Disk>, newCapacity: nat) returns (newPartitions: seq<Request>, total: nat)
      requires newCapacity > 0
      ensures newPartitions == Shares(newDisks, V, newCapacity)
      ensures total == ShareTotal(newDisks, V, newCapacity)
    {
      newPartitions, total := [], 0;
      for i := 0 to |newDisks|
        invariant newPartitions == Shares(newDisks[..i], V, newCapacity)
        invariant total == ShareTotal(newDisks[..i], V, newCapacity)
      {
        TotalStep(newDisks, i, V, newCapacity);
        var newPartCapacity := newDisks[i].capacity * V / newCapacity;
        total := total + newPartCapacity;
        newPartitions := newPartitions + [Request(newDisks[i].id, newPartCapacity)];
      }
      assert newDisks[..|newDisks|] == newDisks;
    }

    method EnterDisks(newDisks: seq<Disk>)
      modifies this`disks
      ensures disks == Extend(old(disks), Capacities(newDisks))
    {
      for i := 0 to |newDisks|
        invariant disks == Extend(old(disks), Capacities(newDisks[..i]))
      {
        TotalStep(newDisks, i, 0, 1);
        disks := disks[newDisks[i].id := newDisks[i].capacity];
      }
      assert newDisks[..|newDisks|] == newDisks;
    }

    method EnterPartitions(newPartitions: seq<Request>)
      modifies this`partitions
      ensures partitions == Extend(old(partitions), newPartitions)
    {
      for i := 0 to |newPartitions|
        invariant partitions == Extend(old(partitions), newPartitions[..i])
      {
        assert newPartitions[..i+1][..i] == newPartitions[..i];
        partitions := partitions[newPartitions[i].id := newPartitions[i].size];
      }
      assert newPartitions[..|newPartitions|] == newPartitions;
    }

    /** Records each old partition's new size and returns what it loses; visits the partitions in any order. */
    method ShrinkPartitions(newCapacity: nat) returns (losses: map<nat, nat>, total: nat)
      requires newCapacity > 0 && partitions.Keys == disks.Keys
      requires forall p | p in disks :: Quota(disks[p], V, newCapacity) <= partitions[p]
      modifies this`partitions
      ensures partitions == QuotaMap(disks, V, newCapacity)
      ensures losses == Losses(old(partitions), disks, V, newCapacity)
      ensures total == SumMap(losses)
    {
      ghost var before := partitions;
      var todo := partitions.Keys;
      losses, total := map[], 0;
      while todo != {}
        invariant todo <= before.Keys == partitions.Keys == disks.Keys
        invariant losses.Keys == before.Keys - todo
        invariant forall p | p in todo :: partitions[p] == before[p]
        invariant forall p | p in losses ::
                    partitions[p] == Quota(disks[p], V, newCapacity) && losses[p] == before[p] - partitions[p]
        invariant total == SumMap(losses)
        decreases todo
      {
        var partId :| partId in todo;
        var newPartCapacity := disks[partId] * V / newCapacity;
        assert newPartCapacity == Quota(disks[partId], V, newCapacity);
        var loss: nat := partitions[partId] - newPartCapacity;
        SumMapUpdate(losses, partId, loss);
        losses := losses[partId := loss];
        total := total + loss;
        partitions := partitions[partId := newPartCapacity];
        todo := todo - {partId};
      }
    }

    method Redistribute(quotas: map<nat, nat>, requests: seq<Request>) returns (handed: seq<Request>)
      requires tree != null && tree.Valid() && tree.max == V
      requires forall x | 0 <= x < V :: tree.owners[x] in quotas
      requires forall p | p in quotas :: quotas[p] <= Owned(tree.owners, p)
      requires Fresh(quotas, requests) && SumMap(quotas) == SumSeq(Sizes(requests))
      modifies tree
      ensures tree.Valid() && tree.treeBuilt
      ensures multiset(handed) == multiset(requests)
      ensures Redistributed(old(tree.owners), tree.owners, quotas, requests)
      ensures MovedBlocksFollow(useEvenOddCollection, old(tree.leaves), old(tree.owners), tree.owners, quotas)
      ensures InTurn(useSortedAssimilation, old(tree.owners), tree.owners, requests)
    {
      ghost var before, leaves := tree.owners, tree.leaves;
      ghost var left, order;
      var free;
      free, left := CollectSpace(quotas);
      order, handed := ReuseSpace(free, quotas, requests);
      Effect(before, quotas, free, left, order, requests, handed);
      TakenInTurn(useSortedAssimilation, before, quotas, free, left, order, requests, handed);
      MovedFollow(useEvenOddCollection, leaves, before, tree.owners, quotas, free);
    }

    /** The free space, collected in the configured way. */
    method CollectSpace(quotas: map<nat, nat>) returns (free: seq<Interval>, ghost left: map<nat, nat>)
      requires tree != null && tree.Valid()
      requires forall x | 0 <= x < tree.max :: tree.owners[x] in quotas
      ensures Swept(tree.owners, quotas, free, left, tree.max)
      ensures Picks(useEvenOddCollection, tree.leaves, tree.owners, quotas, free)
    {
      KnownValues(tree.leaves, tree.owners, quotas);
      if useEvenOddCollection {
        free, left := CollectFreeSpaceEvenOdd(tree, quotas);
      } else {
        free, left := CollectFreeSpace(tree, quotas);
      }
    }

    /** Hands the free space to the new partitions, in list order or with both lists sorted by size. */
    method ReuseSpace(free: seq<Interval>, ghost quotas: map<nat, nat>, requests: seq<Request>)
      returns (ghost order: seq<Interval>, handed: seq<Request>)
      requires tree != null && tree.Valid() && Separated(free, tree.max) && Fresh(quotas, requests)
      modifies tree
      ensures tree.Valid() && tree.treeBuilt
      ensures multiset(order) == multiset(free) && IntervalsInOrder(useSortedAssimilation, order)
      ensures ServedInOrder(useSortedAssimilation, requests, handed)
      ensures InSpace(BlocksOf(order), |old(tree.owners)|)
      ensures tree.owners == Assign(old(tree.owners), BlocksOf(order), Receivers(handed))
    {
      if useSortedAssimilation {
        SortedIntervals(free, tree.max);
        SortedRequests(quotas, requests);
        order, handed := ReuseFreeSpaceSort(tree, free, requests);
      } else {
        order, handed := free, requests;
        ReuseFreeSpace(tree, free, requests);
      }
    }

    /** An extent's copies go to the owners of successive hash keys, skipping disks already chosen. */
    method PlaceExtent(copies: nat, hash: nat -> nat) returns (placed: Option<seq<nat>>)
      requires Valid() && tree != null
      ensures placed.Some?
              ==> |placed.value| == copies && exists n: nat :: placed.value == FirstOwners(tree.owners, hash, n)
      ensures placed.Some? ==> Distinct(placed.value) && forall k | 0 <= k < |placed.value| :: placed.value[k] in disks
      ensures (forall i: nat :: hash(i) < V) ==> (placed.Some? <==> MeetsEnough(tree.owners, hash, copies))
    {
      placed := ProbePartitions(tree, disks, copies, hash);
    }
  }

  method ProbePartitions(tree: FlatSegmentTree, disks: map<nat, nat>, copies: nat, hash: nat -> nat)
    returns (placed: Option<seq<nat>>)
    requires tree.Valid() && tree.treeBuilt
    ensures placed.Some?
            ==> |placed.value| == copies && exists n: nat :: placed.value == FirstOwners(tree.owners, hash, n)
    ensures placed.Some? ==> Distinct(placed.value) && forall k | 0 <= k < |placed.value| :: placed.value[k] in disks
    ensures (forall x | 0 <= x < tree.max :: tree.owners[x] in disks) && (forall i: nat :: hash(i) < tree.max) ==>
              (placed.Some? <==> MeetsEnough(tree.owners, hash, copies))
  {
    var result: seq<nat> := [];
    var idx: nat := 0;
    while |result| < copies
      invariant result == FirstOwners(tree.owners, hash, idx)
      invariant |result| <= copies && AllNewFrom(tree.owners, hash, idx)
      invariant forall k | 0 <= k < |result| :: result[k] in disks
      decreases copies - |result|, 200 - idx
    {
      var key := hash(idx);
      var found, partitionId := tree.SearchTree(key);
      if partitionId in result {
        idx := idx + 1;
        if idx > 200 {
          NeverEnough(tree.owners, hash, copies, idx - 1, idx);
          return None;
        }
      } else {
        if partitionId !in disks {
          return None;
        }
        result := result + [partitionId];
        idx := idx + 1;
      }
    }
    FirstOwnersDistinct(tree.owners, hash, idx);
    MetEnough(tree.owners, hash, copies, idx);
    return Some(result);
  }

  /** The first block of the interval of disk k: the rounded shares of the disks before it come first. */
  function Boundary(disks: seq<Disk>, V: nat, C: nat, k: nat): nat
    requires C > 0 && k <= |disks|
  {
    if k == |disks| then V else ShareTotal(disks[..k], V, C)
  }

  /** Each of the first n disks owns exactly the blocks of its own interval, as far as they are cut. */
  ghost predicate CutUpTo(disks: seq<Disk>, V: nat, C: nat, owners: seq<nat>, n: nat)
    requires C > 0
  {
    && n <= |disks| && Boundary(disks, V, C, n) <= |owners|
    && forall k: nat | k < n :: OwnsInterval(disks, V, C, owners, k, Boundary(disks, V, C, n))
  }

  ghost predicate OwnsInterval(disks: seq<Disk>, V: nat, C: nat, owners: seq<nat>, k: nat, end: nat)
    requires C > 0 && k < |disks| && end <= |owners|
  {
    forall x | 0 <= x < end ::
      owners[x] == disks[k].id <==> Boundary(disks, V, C, k) <= x < Boundary(disks, V, C, k + 1)
  }

  /** One interval per disk, in list order: block x is owned by disk k exactly if it lies in that disk's interval. */
  ghost predicate CutInOrder(disks: seq<Disk>, V: nat, C: nat, owners: seq<nat>)
    requires C > 0
  {
    |owners| == V && forall k: nat | k < |disks| :: OwnsInterval(disks, V, C, owners, k, V)
  }

  lemma {:induction false} BoundariesAscend(disks: seq<Disk>, V: nat, C: nat, k: nat, n: nat)
    requires C > 0 && k <= n <= |disks| && ShareTotal(disks, V, C) <= V
    ensures Boundary(disks, V, C, k) <= Boundary(disks, V, C, n) <= V
    decreases n
  {
    ShareTotalMonotone(disks, n, V, C);
    if n == |disks| { ShareTotalMonotone(disks, k, V, C); }
    if k < n {
      BoundariesAscend(disks, V, C, k, n - 1);
      TotalStep(disks, n - 1, V, C);
    }
  }

  /** Cutting the next interval. */
  lemma {:induction false} CutNext(disks: seq<Disk>, i: nat, V: nat, C: nat, owners: seq<nat>, parts: seq<Request>,
                                   i0: nat, i1: nat)
    requires C > 0 && i == |parts| < |disks| && Fresh(map[], Capacities(disks)) && ShareTotal(disks, V, C) <= V
    requires |owners| == V && Filled(disks, V, C, owners, i0, parts) && CutUpTo(disks, V, C, owners, i)
    requires i0 == Boundary(disks, V, C, i) && i0 <= i1 == Boundary(disks, V, C, i + 1) <= V
    ensures CutUpTo(disks, V, C, Fill(owners, i0, i1, disks[i].id), i + 1)
  {
    var after := Fill(owners, i0, i1, disks[i].id);
    forall k: nat | k < i + 1 ensures OwnsInterval(disks, V, C, after, k, i1) {
      BoundariesAscend(disks, V, C, k, i);
      if k < i {
        BoundariesAscend(disks, V, C, k + 1, i);
        assert OwnsInterval(disks, V, C, owners, k, i0);
        assert Capacities(disks)[k].id != Capacities(disks)[i].id;
      } else {
        forall x | 0 <= x < i0 ensures owners[x] != disks[i].id { NotListedYet(disks, V, C, owners, i0, parts, x); }
      }
    }
  }

  lemma NotListedYet(disks: seq<Disk>, V: nat, C: nat, owners: seq<nat>, end: nat, parts: seq<Request>, x: nat)
    requires C > 0 && |parts| < |disks| && Fresh(map[], Capacities(disks))
    requires Filled(disks, V, C, owners, end, parts) && x < end
    ensures owners[x] != disks[|parts|].id
  {
    assert Listed(parts, owners[x]);
    var k :| 0 <= k < |parts| && parts[k].id == owners[x];
    assert Capacities(disks)[k].id != Capacities(disks)[|parts|].id;
  }

  /** The first |parts| disks have received [0, end), each its share (the last one the remainder). */
  ghost predicate Filled(disks: seq<Disk>, V: nat, C: nat, owners: seq<nat>, end: nat, parts: seq<Request>)
    requires C > 0
  {
    && |parts| <= |disks| && end <= |owners|
    && (forall k | 0 <= k < |parts| ::
       parts[k].id == disks[k].id && parts[k].size == Count(owners, 0, end, parts[k].id))
    && (forall x | 0 <= x < end :: Listed(parts, owners[x]))
    && (forall k | 0 <= k < |parts| && k < |disks| - 1 :: parts[k].size == Quota(disks[k].capacity, V, C))
    && (|parts| == |disks| && disks != [] ==> parts[|parts|-1].size == Excess(V, ShareTotal(disks[..|disks|-1], V, C)))
  }

  lemma FilledNext(disks: seq<Disk>, i: nat, V: nat, C: nat, owners: seq<nat>, i0: nat, i1: nat, parts: seq<Request>)
    requires C > 0 && i < |disks| && Fresh(map[], Capacities(disks)) && |parts| == i
    requires Filled(disks, V, C, owners, i0, parts) && i0 <= i1 <= V == |owners|
    requires i0 == ShareTotal(disks[..i], V, C)
    requires i1 == if i == |disks| - 1 then V else i0 + Quota(disks[i].capacity, V, C)
    ensures Filled(disks, V, C, Fill(owners, i0, i1, disks[i].id), i1, parts + [Request(disks[i].id, i1 - i0)])
  {
    var pid := disks[i].id;
    var after, parts' := Fill(owners, i0, i1, pid), parts + [Request(pid, i1 - i0)];
    forall k | 0 <= k < |parts'|
      ensures parts'[k].id == disks[k].id && parts'[k].size == Count(after, 0, i1, parts'[k].id)
    {
      var id := parts'[k].id;
      assert Capacities(disks)[k].id == disks[k].id && Capacities(disks)[i].id == pid;
      CountSplit(after, 0, i0, i1, id);
      CountAgree(owners, after, 0, i0, id);
      CountUniform(after, i0, i1, pid, id);
      if k == i { NotYetFilled(disks, V, C, owners, i0, parts); }
    }
    forall x | 0 <= x < i1 ensures Listed(parts', after[x]) {
      if x < i0 {
        var k :| 0 <= k < |parts| && parts[k].id == owners[x];
        assert parts'[k].id == after[x];
      } else {
        assert parts'[i].id == after[x];
      }
    }
  }

  lemma {:induction false} NotYetFilled(disks: seq<Disk>, V: nat, C: nat, owners: seq<nat>, end: nat,
                                        parts: seq<Request>)
    requires C > 0 && |parts| < |disks| && Fresh(map[], Capacities(disks))
    requires Filled(disks, V, C, owners, end, parts)
    ensures Count(owners, 0, end, disks[|parts|].id) == 0
  {
    var i := |parts|;
    forall x | 0 <= x < end ensures owners[x] != disks[i].id {
      NotListedYet(disks, V, C, owners, end, parts, x);
    }
    CountAbsent(owners, 0, end, disks[i].id);
  }

  lemma {:induction false} FilledKeys(newDisks: seq<Disk>, parts: seq<Request>)
    requires Fresh(map[], Capacities(newDisks)) && |parts| == |newDisks|
    requires forall k | 0 <= k < |parts| :: parts[k].id == newDisks[k].id
    ensures var disks, partitions := Extend(map[], Capacities(newDisks)), Extend(map[], parts);
            && |partitions| == |disks| == |newDisks|
            && forall id: nat :: (id in disks <==> Listed(parts, id)) && (id in partitions <==> Listed(parts, id))
  {
    var caps := Capacities(newDisks);
    FreshParts(newDisks, parts);
    ExtendSum(map[], caps);
    ExtendSum(map[], parts);
    forall id: nat
      ensures id in Extend(map[], caps) <==> Listed(parts, id)
      ensures id in Extend(map[], parts) <==> Listed(parts, id)
    {
      SameIds(parts, caps, id);
      ExtendKeys(map[], caps, id);
      ExtendKeys(map[], parts, id);
    }
  }

  lemma {:induction false} FilledAll(newDisks: seq<Disk>, V: nat, C: nat, owners: seq<nat>, parts: seq<Request>)
    requires newDisks != [] && C > 0 && |owners| == V && Fresh(map[], Capacities(newDisks))
    requires |parts| == |newDisks| && Filled(newDisks, V, C, owners, V, parts)
    requires ShareTotal(newDisks, V, C) <= V < ShareTotal(newDisks, V, C) + |newDisks|
    ensures var disks, partitions := Extend(map[], Capacities(newDisks)), Extend(map[], parts);
            && Rounded(disks, partitions, V, C, newDisks[|newDisks|-1].id)
            && (forall x | 0 <= x < V :: owners[x] in disks)
            && (forall id | id in partitions :: partitions[id] == Owned(owners, id))
            && |partitions| == |disks| == |newDisks|
  {
    var disks, partitions := Extend(map[], Capacities(newDisks)), Extend(map[], parts);
    var n := |newDisks| - 1;
    FilledKeys(newDisks, parts);
    FilledEntry(newDisks, V, C, owners, parts, n);
    forall id | id in partitions
      ensures partitions[id] == Owned(owners, id)
      ensures id != newDisks[n].id ==> partitions[id] == Quota(disks[id], V, C)
    {
      var k :| 0 <= k < |parts| && parts[k].id == id;
      FilledEntry(newDisks, V, C, owners, parts, k);
    }
    LastRemainder(newDisks, V, C);
  }

  /** What is left for the last disk is its share and at most the rounding of all. */
  lemma LastRemainder(newDisks: seq<Disk>, V: nat, C: nat)
    requires newDisks != [] && C > 0
    requires ShareTotal(newDisks, V, C) <= V < ShareTotal(newDisks, V, C) + |newDisks|
    ensures var n := |newDisks| - 1;
            var share := Quota(newDisks[n].capacity, V, C);
            share <= Excess(V, ShareTotal(newDisks[..n], V, C)) < share + |newDisks|
  {
    var n := |newDisks| - 1;
    assert newDisks[..n+1] == newDisks;
    TotalStep(newDisks, n, V, C);
  }

  lemma SharesFit(newDisks: seq<Disk>, V: nat)
    requires Total(newDisks) > 0 && Fresh(map[], Capacities(newDisks))
    ensures ShareTotal(newDisks, V, Total(newDisks)) <= V < ShareTotal(newDisks, V, Total(newDisks)) + |newDisks|
  {
    SharesAfter(map[], newDisks, V);
    NothingKept(V, Total(newDisks));
  }

  lemma NothingKept(V: nat, C: nat)
    requires C > 0
    ensures SumMap(map[]) == 0 && SumMap(QuotaMap(map[], V, C)) == 0
  {
    assert QuotaMap(map[], V, C) == map[];
  }

  lemma {:induction false} FilledConsistent(newDisks: seq<Disk>, V: nat, leaves: seq<Leaf>, owners: seq<nat>,
                                            parts: seq<Request>)
    requires newDisks != [] && Total(newDisks) > 0 && |owners| == V && Fresh(map[], Capacities(newDisks))
    requires |parts| == |newDisks| && Filled(newDisks, V, Total(newDisks), owners, V, parts)
             && Represents(leaves, owners)
    ensures var disks, partitions := Extend(map[], Capacities(newDisks)), Extend(map[], parts);
            && Consistent(State(V, disks, partitions, Total(newDisks), leaves, owners, newDisks[|newDisks|-1].id))
            && |disks| == |newDisks|
  {
    SharesFit(newDisks, V);
    FilledAll(newDisks, V, Total(newDisks), owners, parts);
    ExtendSum(map[], Capacities(newDisks));
  }

  lemma FreshParts(disks: seq<Disk>, parts: seq<Request>)
    requires Fresh(map[], Capacities(disks)) && |parts| == |disks|
    requires forall k | 0 <= k < |parts| :: parts[k].id == disks[k].id
    ensures Fresh(map[], parts)
  {
    assert forall k | 0 <= k < |parts| :: parts[k].id == Capacities(disks)[k].id;
  }

  lemma {:induction false} FilledEntry(disks: seq<Disk>, V: nat, C: nat, owners: seq<nat>, parts: seq<Request>, k: nat)
    requires C > 0 && |owners| == V && Fresh(map[], Capacities(disks))
    requires k < |parts| == |disks| && Filled(disks, V, C, owners, V, parts)
    ensures var id, d, p := disks[k].id, Extend(map[], Capacities(disks)), Extend(map[], parts);
            && id in d && d[id] == disks[k].capacity && id in p && p[id] == Owned(owners, id)
            && p[id] == if k < |disks| - 1 then Quota(d[id], V, C) else Excess(V, ShareTotal(disks[..k], V, C))
  {
    FreshParts(disks, parts);
    ExtendValue(map[], Capacities(disks), k);
    ExtendValue(map[], parts, k);
  }

  /** The blocks of segment i that changed owner are those that the even-odd rule picks. */
  ghost predicate SegmentFollows(leaves: seq<Leaf>, before: seq<nat>, after: seq<nat>, quotas: map<nat, nat>, i: nat)
    requires Represents(leaves, before) && i < |leaves| - 1 && |after| == |before|
    requires forall k | 0 <= k < |leaves| - 1 :: leaves[k].value in quotas
  {
    SegmentBounds(leaves, before, i);
    forall x | leaves[i].key <= x < leaves[i+1].key ::
      after[x] != before[x] <==> TakesEvenOdd(leaves, before, quotas, i, x)
  }

  /** The different owners met by the first n keys, in order of appearance; a key past the last block reads as 0. */
  function FirstOwners(owners: seq<nat>, hash: nat -> nat, n: nat): seq<nat> {
    if n == 0 then []
    else
      var seen, key := FirstOwners(owners, hash, n - 1), hash(n - 1);
      var id := if key < |owners| then owners[key] else 0;
      if id in seen then seen else seen + [id]
  }

  lemma {:induction false} FirstOwnersDistinct(owners: seq<nat>, hash: nat -> nat, n: nat)
    ensures Distinct(FirstOwners(owners, hash, n))
  {
    if n > 0 { FirstOwnersDistinct(owners, hash, n - 1); }
  }

  lemma {:induction false} FirstOwnersGrow(owners: seq<nat>, hash: nat -> nat, m: nat, n: nat)
    requires m <= n
    ensures |FirstOwners(owners, hash, m)| <= |FirstOwners(owners, hash, n)| <= |FirstOwners(owners, hash, m)| + n - m
    decreases n
  {
    if m < n { FirstOwnersGrow(owners, hash, m, n - 1); }
  }

  /**
   The first 200 keys meet enough owners, or every further key meets a new one until there are enough: a
   repeated owner after 200 keys ends the search.
   */
  ghost predicate MeetsEnough(owners: seq<nat>, hash: nat -> nat, copies: nat) {
    var met := |FirstOwners(owners, hash, 200)|;
    met >= copies || |FirstOwners(owners, hash, 200 + copies - met)| == copies
  }

  /** Every key from 200 on met a new owner so far. */
  ghost predicate AllNewFrom(owners: seq<nat>, hash: nat -> nat, n: nat) {
    n > 200 ==> |FirstOwners(owners, hash, n)| == |FirstOwners(owners, hash, 200)| + n - 200
  }

  lemma MetEnough(owners: seq<nat>, hash: nat -> nat, copies: nat, n: nat)
    requires |FirstOwners(owners, hash, n)| == copies && AllNewFrom(owners, hash, n)
    ensures MeetsEnough(owners, hash, copies)
  {
    if n <= 200 { FirstOwnersGrow(owners, hash, n, 200); }
  }

  lemma NeverEnough(owners: seq<nat>, hash: nat -> nat, copies: nat, n: nat, next: nat)
    requires n >= 200 && AllNewFrom(owners, hash, n) && next == n + 1
    requires |FirstOwners(owners, hash, next)| == |FirstOwners(owners, hash, n)| < copies
    ensures !MeetsEnough(owners, hash, copies)
  {
    var met := |FirstOwners(owners, hash, 200)|;
    FirstOwnersGrow(owners, hash, 200, n);
    FirstOwnersGrow(owners, hash, next, 200 + copies - met);
  }

  /** The partition sizes of a consistent state add up to the whole space. */
  lemma PartitionsFillSpace(s: State)
    requires Consistent(s)
    ensures SumMap(s.partitions) == s.V
  {
    CountPartition(s.owners, s.V, s.partitions);
    NoneOutside(s.owners, s.V, s.partitions.Keys);
  }

  /** Each old partition loses what it holds above its new share, and owns as much. */
  lemma LossEach(s: State, C: nat)
    requires Consistent(s) && s.capacity <= C
    ensures var losses := Losses(s.partitions, s.disks, s.V, C);
            && losses.Keys == s.disks.Keys == s.partitions.Keys
            && forall p | p in losses ::
                 && Quota(s.disks[p], s.V, C) <= s.partitions[p] == Owned(s.owners, p)
                 && losses[p] == s.partitions[p] - Quota(s.disks[p], s.V, C)
  {
    forall p | p in s.disks ensures Quota(s.disks[p], s.V, C) <= s.partitions[p] {
      QuotaShrinks(s.disks[p], s.V, s.capacity, C);
    }
  }

  /** What partitions that fill the space lose covers the shares of the new ones, up to one block per disk. */
  lemma LossesSum(disks: map<nat, nat>, partitions: map<nat, nat>, added: seq<Disk>, V: nat, C: nat)
    requires C > 0 && C == SumMap(disks) + Total(added) && Fresh(disks, Capacities(added))
    requires partitions.Keys == disks.Keys && SumMap(partitions) == V
    requires forall p | p in disks :: Quota(disks[p], V, C) <= partitions[p]
    ensures var shares := ShareTotal(added, V, C);
            shares <= SumMap(Losses(partitions, disks, V, C)) < shares + |disks| + |added|
  {
    SharesAfter(disks, added, V);
    SumMapSplit(Losses(partitions, disks, V, C), QuotaMap(disks, V, C), partitions);
  }

  /** What the old partitions lose covers the shares of the new ones, with less than one block per disk to spare. */
  lemma LossesCover(s: State, added: seq<Disk>, C: nat)
    requires Consistent(s) && added != [] && Fresh(s.disks, Capacities(added)) && C == s.capacity + Total(added)
    ensures var losses := Losses(s.partitions, s.disks, s.V, C);
            var requests := Requests(losses, added, s.V, C);
            && ShareTotal(added, s.V, C) <= SumMap(losses) < ShareTotal(added, s.V, C) + |s.disks| + |added|
            && Fresh(losses, requests) && SumSeq(Sizes(requests)) == SumMap(losses)
  {
    LossEach(s, C);
    PartitionsFillSpace(s);
    LossesSum(s.disks, s.partitions, added, s.V, C);
    RequestsFit(s.disks, Losses(s.partitions, s.disks, s.V, C), added, s.V, C);
  }

  lemma GrowthPossible(s: State, added: seq<Disk>, C: nat)
    requires Consistent(s) && added != [] && Fresh(s.disks, Capacities(added)) && C == s.capacity + Total(added)
    ensures CanMove(s.disks, s.partitions, s.owners, added, s.V, C)
  {
    LossEach(s, C);
    LossesCover(s, added, C);
    assert forall p | p in s.disks :: p in Losses(s.partitions, s.disks, s.V, C);
  }

  lemma {:induction false} RequestsFit(known: map<nat, nat>, losses: map<nat, nat>, added: seq<Disk>, V: nat, C: nat)
    requires C > 0 && added != [] && Fresh(known, Capacities(added)) && losses.Keys == known.Keys
    requires ShareTotal(added, V, C) <= SumMap(losses)
    ensures var requests := Requests(losses, added, V, C);
            Fresh(losses, requests) && SumSeq(Sizes(requests)) == SumMap(losses)
  {
    var n := |added| - 1;
    var shares, requests := Shares(added, V, C), Requests(losses, added, V, C);
    assert forall i | 0 <= i <= n :: requests[i].id == Capacities(added)[i].id;
    assert Sizes(requests)[..n] == Sizes(shares)[..n];
  }

  lemma RequestAt(losses: map<nat, nat>, added: seq<Disk>, V: nat, C: nat, k: nat)
    requires C > 0 && k < |added|
    ensures var requests := Requests(losses, added, V, C);
            && |requests| == |added| && requests[k].id == added[k].id
            && var rest := if k == |added| - 1 then Excess(SumMap(losses), ShareTotal(added, V, C)) else 0;
               requests[k].size == Quota(added[k].capacity, V, C) + rest
  {
  }

  function IdOf(r: Request): seq<nat> { [r.id] }

  lemma {:induction false} FlattenIds(requests: seq<Request>)
    ensures |Flatten(requests, IdOf)| == |requests|
    ensures forall i | 0 <= i < |requests| :: Flatten(requests, IdOf)[i] == requests[i].id
  {
    if requests != [] { FlattenIds(requests[1..]); }
  }

  lemma FreshPermutation(m: map<nat, nat>, requests: seq<Request>, sorted: seq<Request>)
    requires Fresh(m, requests) && multiset(sorted) == multiset(requests)
    ensures Fresh(m, sorted)
    ensures |sorted| == |requests|
    ensures forall id: nat :: Listed(sorted, id) <==> Listed(requests, id)
    ensures forall i | 0 <= i < |requests| :: requests[i] in sorted
  {
    assert |multiset(sorted)| == |sorted| && |multiset(requests)| == |requests|;
    var a, b := Flatten(requests, IdOf), Flatten(sorted, IdOf);
    FlattenIds(requests);
    FlattenIds(sorted);
    FlattenPermutation(requests, sorted, IdOf);
    DistinctMultiset(a);
    DistinctMultiset(b);
    forall id: nat ensures Listed(sorted, id) <==> Listed(requests, id) {
      ListedIn(requests, id);
      ListedIn(sorted, id);
      assert id in a <==> id in multiset(a);
      assert id in b <==> id in multiset(b);
    }
    forall i, j | 0 <= i < j < |sorted| ensures sorted[i].id != sorted[j].id {
      assert b[i] != b[j];
    }
    forall i | 0 <= i < |sorted| ensures sorted[i].id !in m {
      assert Listed(sorted, sorted[i].id);
      assert Listed(requests, sorted[i].id);
    }
    forall i | 0 <= i < |requests| ensures requests[i] in sorted {
      assert requests[i] in multiset(requests);
    }
  }

  lemma {:induction false} ListedIn(requests: seq<Request>, id: nat)
    ensures Listed(requests, id) <==> id in Flatten(requests, IdOf)
  {
    FlattenIds(requests);
    if i :| 0 <= i < |requests| && requests[i].id == id {
      assert Flatten(requests, IdOf)[i] == id;
    }
  }

  /** The stored partition table after the new partitions, in whatever order they came back, were entered. */
  lemma {:induction false} PartitionsAfter(known: map<nat, nat>, losses: map<nat, nat>, added: seq<Disk>, V: nat,
                                           C: nat, sorted: seq<Request>)
    requires C > 0 && added != [] && Fresh(known, Capacities(added)) && losses.Keys == known.Keys
    requires multiset(sorted) == multiset(Requests(losses, added, V, C)) && Fresh(losses, Requests(losses, added, V, C))
    ensures var disks, partitions := Extend(known, Capacities(added)), Extend(QuotaMap(known, V, C), sorted);
            var requests := Requests(losses, added, V, C);
            && partitions.Keys == disks.Keys && |sorted| == |added|
            && |disks| == |known| + |added| && |partitions| == |known| + |added|
            && (forall p | p in known :: p in disks && disks[p] == known[p] && partitions[p] == Quota(known[p], V, C))
            && forall k | 0 <= k < |requests| ::
                 requests[k].id in disks && partitions[requests[k].id] == requests[k].size
  {
    var caps, quotas, requests := Capacities(added), QuotaMap(known, V, C), Requests(losses, added, V, C);
    assert quotas.Keys == known.Keys;
    SameKeys(known, caps, quotas, requests, sorted);
    forall p | p in known
      ensures p in Extend(known, caps) && Extend(known, caps)[p] == known[p] && Extend(quotas, sorted)[p] == quotas[p]
    {
      OldValue(known, caps, p);
      FreshPermutation(quotas, requests, sorted);
      OldValue(quotas, sorted, p);
    }
    forall k | 0 <= k < |requests|
      ensures requests[k].id in Extend(known, caps) && Extend(quotas, sorted)[requests[k].id] == requests[k].size
    {
      RequestAt(losses, added, V, C, k);
      ExtendValue(known, caps, k);
      SortedValue(quotas, requests, sorted, k);
    }
    PartitionsCount(known, caps, quotas, requests, sorted);
  }

  lemma {:induction false} PartitionsCount(known: map<nat, nat>, caps: seq<Request>, quotas: map<nat, nat>,
                                           requests: seq<Request>, sorted: seq<Request>)
    requires quotas.Keys == known.Keys && |requests| == |caps| && Fresh(known, caps)
    requires Fresh(quotas, requests) && multiset(sorted) == multiset(requests)
    ensures |sorted| == |caps| && |Extend(known, caps)| == |known| + |caps| == |Extend(quotas, sorted)|
  {
    FreshPermutation(quotas, requests, sorted);
    ExtendSum(known, caps);
    ExtendSum(quotas, sorted);
    assert |quotas| == |quotas.Keys| == |known.Keys| == |known|;
  }

  lemma {:induction false} OldValue(m: map<nat, nat>, entries: seq<Request>, p: nat)
    requires Fresh(m, entries) && p in m
    ensures p in Extend(m, entries) && Extend(m, entries)[p] == m[p]
  {
    ExtendKeys(m, entries, p);
    NotListed(m, entries, p);
  }

  lemma {:induction false} SameKeys(a: map<nat, nat>, aEntries: seq<Request>, b: map<nat, nat>,
                                    requests: seq<Request>, sorted: seq<Request>)
    requires a.Keys == b.Keys && Fresh(b, requests) && multiset(sorted) == multiset(requests)
    requires |requests| == |aEntries| && forall i | 0 <= i < |requests| :: requests[i].id == aEntries[i].id
    ensures Extend(a, aEntries).Keys == Extend(b, sorted).Keys
  {
    FreshPermutation(b, requests, sorted);
    forall id: nat ensures id in Extend(a, aEntries) <==> id in Extend(b, sorted) {
      SameIds(requests, aEntries, id);
      ExtendKeys(a, aEntries, id);
      ExtendKeys(b, sorted, id);
    }
  }

  lemma {:induction false} SortedValue(m: map<nat, nat>, requests: seq<Request>, sorted: seq<Request>, k: nat)
    requires Fresh(m, requests) && multiset(sorted) == multiset(requests) && k < |requests|
    ensures requests[k].id in Extend(m, sorted) && Extend(m, sorted)[requests[k].id] == requests[k].size
  {
    FreshPermutation(m, requests, sorted);
    var j :| 0 <= j < |sorted| && sorted[j] == requests[k];
    ExtendValue(m, sorted, j);
  }

  lemma NotListed(m: map<nat, nat>, entries: seq<Request>, id: nat)
    requires Fresh(m, entries) && id in m
    ensures !Listed(entries, id)
  {
  }

  /** s with the disks of `added` entered and the blocks and partition sizes that a redistribution left. */
  ghost function NextState(s: State, added: seq<Disk>, C: nat, partitions: map<nat, nat>, leaves: seq<Leaf>,
                           owners: seq<nat>): State
    requires added != []
  {
    State(s.V, Extend(s.disks, Capacities(added)), partitions, C, leaves, owners, added[|added|-1].id)
  }

  /** A redistribution followed by entering the new disks is one step of growth. */
  lemma {:induction false} GrowthStep(s: State, added: seq<Disk>, how: Strategy, C: nat, losses: map<nat, nat>,
                                      requests: seq<Request>, sorted: seq<Request>, leaves: seq<Leaf>, owners: seq<nat>)
    requires Consistent(s) && added != [] && Fresh(s.disks, Capacities(added)) && C == s.capacity + Total(added)
    requires losses == Losses(s.partitions, s.disks, s.V, C) && requests == Requests(losses, added, s.V, C)
    requires multiset(sorted) == multiset(requests)
    requires Redistributed(s.owners, owners, losses, requests)
    requires MovedBlocksFollow(how.evenOdd, s.leaves, s.owners, owners, losses)
    requires InTurn(how.sorted, s.owners, owners, requests)
    requires Represents(leaves, owners)
    ensures var t := NextState(s, added, C, Extend(QuotaMap(s.disks, s.V, C), sorted), leaves, owners);
            && Grows(s, t, added, how)
            && |t.disks| == |s.disks| + |added| && |t.partitions| == |s.disks| + |sorted|
  {
    LossEach(s, C);
    LossesCover(s, added, C);
    PartitionsAfter(s.disks, losses, added, s.V, C, sorted);
  }

  /** Share and holding of one disk. */
  ghost predicate GrownEntry(t: State, id: nat)
    requires t.capacity > 0
  {
    && id in t.disks && id in t.partitions && t.partitions[id] == Owned(t.owners, id)
    && var share := Quota(t.disks[id], t.V, t.capacity);
       if id == t.last then share <= t.partitions[id] < share + |t.disks| else t.partitions[id] == share
  }

  lemma OldEntry(s: State, t: State, added: seq<Disk>, how: Strategy, id: nat)
    requires Consistent(s) && Fresh(s.disks, Capacities(added)) && Grows(s, t, added, how) && id in s.disks
    ensures GrownEntry(t, id)
  {
    ExtendKeys(s.disks, Capacities(added), id);
    NotListed(s.disks, Capacities(added), id);
    assert Capacities(added)[|added|-1].id == t.last;
    QuotaShrinks(s.disks[id], s.V, s.capacity, t.capacity);
    var losses := Losses(s.partitions, s.disks, s.V, t.capacity);
    assert losses[id] == s.partitions[id] - Quota(s.disks[id], s.V, t.capacity);
    assert Owned(t.owners, id) == Owned(s.owners, id) - losses[id];
  }

  lemma NewEntry(s: State, t: State, added: seq<Disk>, how: Strategy, k: nat)
    requires Consistent(s) && Fresh(s.disks, Capacities(added)) && Grows(s, t, added, how) && k < |added|
    ensures GrownEntry(t, added[k].id)
  {
    var losses := Losses(s.partitions, s.disks, s.V, t.capacity);
    RequestAt(losses, added, s.V, t.capacity, k);
    ExtendValue(s.disks, Capacities(added), k);
    ExtendSum(s.disks, Capacities(added));
    LossesCover(s, added, t.capacity);
    assert k < |added| - 1 ==> Capacities(added)[k].id != Capacities(added)[|added|-1].id;
  }

  lemma GrownOwners(s: State, t: State, added: seq<Disk>, how: Strategy)
    requires Consistent(s) && Fresh(s.disks, Capacities(added)) && Grows(s, t, added, how)
    ensures |t.owners| == t.V && forall x | 0 <= x < t.V :: t.owners[x] in t.disks
  {
    var requests := Requests(Losses(s.partitions, s.disks, s.V, t.capacity), added, s.V, t.capacity);
    forall x | 0 <= x < t.V ensures t.owners[x] in t.disks {
      if t.owners[x] != s.owners[x] {
        assert Listed(requests, t.owners[x]);
      }
    }
  }

  lemma GrownEntries(s: State, t: State, added: seq<Disk>, how: Strategy)
    requires Consistent(s) && Fresh(s.disks, Capacities(added)) && Grows(s, t, added, how)
    ensures t.last in t.disks && forall id | id in t.disks :: GrownEntry(t, id)
  {
    var caps := Capacities(added);
    forall id | id in t.disks ensures GrownEntry(t, id) {
      ExtendKeys(s.disks, caps, id);
      if id in s.disks {
        OldEntry(s, t, added, how, id);
      } else {
        var k :| 0 <= k < |added| && caps[k].id == id;
        NewEntry(s, t, added, how, k);
      }
    }
    NewEntry(s, t, added, how, |added| - 1);
  }

  /** Growth keeps the table consistent. */
  lemma GrowthKeepsConsistent(s: State, t: State, added: seq<Disk>, how: Strategy)
    requires Consistent(s) && Fresh(s.disks, Capacities(added)) && Grows(s, t, added, how)
    ensures Consistent(t)
  {
    ExtendSum(s.disks, Capacities(added));
    GrownOwners(s, t, added, how);
    GrownEntries(s, t, added, how);
    GrownConsistent(t);
  }

  lemma GrownConsistent(t: State)
    requires t.capacity == SumMap(t.disks) && t.capacity > 0 && t.partitions.Keys == t.disks.Keys
    requires Represents(t.leaves, t.owners) && |t.owners| == t.V && forall x | 0 <= x < t.V :: t.owners[x] in t.disks
    requires t.last in t.disks && forall id | id in t.disks :: GrownEntry(t, id)
    ensures Consistent(t)
  {
    assert GrownEntry(t, t.last);
    assert forall id | id in t.partitions :: GrownEntry(t, id);
  }

  lemma SameIds(requests: seq<Request>, caps: seq<Request>, id: nat)
    requires |requests| == |caps| && forall i | 0 <= i < |caps| :: requests[i].id == caps[i].id
    ensures Listed(requests, id) <==> Listed(caps, id)
  {
    if i :| 0 <= i < |caps| && caps[i].id == id { assert requests[i].id == id; }
    if i :| 0 <= i < |caps| && requests[i].id == id { assert caps[i].id == id; }
  }
}
