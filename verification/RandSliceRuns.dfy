/** Random Slicing over whole runs: one creation followed by any sequence of additions. */
module RandSliceRuns {
  import opened Disks
  import opened Sums
  import opened Blocks
  import opened FreeSpace
  import opened Quotas
  import opened Redistribution
  import opened SegmentTree
  import opened Collect
  import opened Handover
  import opened RandSlice

  /** states[0] is consistent (as creation leaves it) and each further state grows out of the one before. */
  ghost predicate Run(states: seq<State>, batches: seq<seq<Disk>>, how: Strategy) {
    && |states| == |batches| + 1
    && Consistent(states[0])
    && forall i: nat | i < |batches| :: GrowsAt(states, batches, how, i)
  }

  ghost predicate GrowsAt(states: seq<State>, batches: seq<seq<Disk>>, how: Strategy, i: nat)
    requires i < |batches| < |states|
  {
    Fresh(states[i].disks, Capacities(batches[i])) && Grows(states[i], states[i+1], batches[i], how)
  }

  /** In every state of every run the intervals tile the space and the stored sizes are the owned blocks. */
  lemma {:induction false} RunStaysConsistent(states: seq<State>, batches: seq<seq<Disk>>, how: Strategy, i: nat)
    requires Run(states, batches, how) && i < |states|
    ensures Consistent(states[i]) && states[i].V == states[0].V
  {
    if i > 0 {
      RunStaysConsistent(states, batches, how, i - 1);
      var h := i - 1;
      assert GrowsAt(states, batches, how, h);
      GrowthKeepsConsistent(states[h], states[h+1], batches[h], how);
    }
  }

  /**
   One addition: a block moves only from an old disk to a new one, as many move as the old disks lose
   together, and no other table with the same final sizes on the old disks moves fewer.
   */
  lemma {:induction false} GrowthMovesMinimum(s: State, t: State, added: seq<Disk>, how: Strategy, other: seq<nat>)
    requires Consistent(s) && Fresh(s.disks, Capacities(added)) && Grows(s, t, added, how)
    requires |other| == s.V && forall p | p in s.disks :: Owned(other, p) == Owned(t.owners, p)
    ensures forall x | 0 <= x < s.V && t.owners[x] != s.owners[x] :: s.owners[x] in s.disks && t.owners[x] !in s.disks
    ensures Moved(s.owners, t.owners, s.V) == s.V - SumMap(QuotaMap(s.disks, s.V, t.capacity))
    ensures Moved(s.owners, t.owners, s.V) <= Moved(s.owners, other, s.V)
  {
    var losses := Losses(s.partitions, s.disks, s.V, t.capacity);
    var requests := Requests(losses, added, s.V, t.capacity);
    GrowthLoss(s, t.capacity);
    LossesCover(s, added, t.capacity);
    GrowthMovesOnlyToNew(s, t, added, how);
    MovementIsQuota(s.owners, t.owners, losses, requests);
    MovementIsMinimal(s.owners, t.owners, other, losses, requests);
  }

  lemma GrowthLoss(s: State, C: nat)
    requires Consistent(s) && s.capacity <= C
    ensures var losses := Losses(s.partitions, s.disks, s.V, C);
            && losses.Keys == s.disks.Keys && (forall p | p in losses :: losses[p] <= Owned(s.owners, p))
            && SumMap(losses) == s.V - SumMap(QuotaMap(s.disks, s.V, C))
  {
    LossEach(s, C);
    PartitionsFillSpace(s);
    SumMapSplit(Losses(s.partitions, s.disks, s.V, C), QuotaMap(s.disks, s.V, C), s.partitions);
  }

  lemma MovesOnlyToNew(s: State, t: State, losses: map<nat, nat>, requests: seq<Request>)
    requires Redistributed(s.owners, t.owners, losses, requests) && Fresh(losses, requests)
             && losses.Keys == s.disks.Keys
    ensures forall x | 0 <= x < |s.owners| && t.owners[x] != s.owners[x] :: t.owners[x] !in s.disks
  {
    forall x | 0 <= x < |s.owners| && t.owners[x] != s.owners[x] ensures t.owners[x] !in s.disks {
      assert Listed(requests, t.owners[x]);
    }
  }

  lemma GrowthMovesOnlyToNew(s: State, t: State, added: seq<Disk>, how: Strategy)
    requires Consistent(s) && Fresh(s.disks, Capacities(added)) && Grows(s, t, added, how)
    ensures s.disks.Keys <= t.disks.Keys
    ensures forall x | 0 <= x < s.V && t.owners[x] != s.owners[x] :: t.owners[x] !in s.disks
  {
    LossEach(s, t.capacity);
    LossesCover(s, added, t.capacity);
    var losses := Losses(s.partitions, s.disks, s.V, t.capacity);
    MovesOnlyToNew(s, t, losses, Requests(losses, added, s.V, t.capacity));
  }

  /** The collection strategy decides which blocks move. */
  lemma SameCollected(evenOdd: bool, l: seq<Leaf>, m: seq<Leaf>, before: seq<nat>, a: seq<nat>, b: seq<nat>,
                      quotas: map<nat, nat>)
    requires MovedBlocksFollow(evenOdd, l, before, a, quotas) && MovedBlocksFollow(evenOdd, m, before, b, quotas)
    requires evenOdd ==> l == m
    ensures SameMoved(before, a, b)
  {
    forall x: nat ensures MovedAt(before, a, x) <==> MovedAt(before, b, x) {
      if x < |before| && evenOdd {
        var i := SegmentOf(l, x, |l| - 1);
        SegmentBounds(l, before, i);
        assert SegmentFollows(l, before, a, quotas, i) && SegmentFollows(l, before, b, quotas, i);
      }
    }
  }

  /** The same owners, disks and sizes, whatever leaves stand for them. */
  ghost predicate SameButLeaves(s: State, t: State) { t == s.(leaves := t.leaves) }

  /** A growth step has one outcome: the new disks and the strategy decide the owner of every block. */
  lemma GrowthIsDetermined(s: State, s': State, t: State, t': State, added: seq<Disk>, how: Strategy)
    requires Consistent(s) && Fresh(s.disks, Capacities(added)) && SameButLeaves(s, s')
    requires Grows(s, t, added, how) && Grows(s', t', added, how) && (how.evenOdd ==> s == s')
    ensures SameButLeaves(t, t')
  {
    OwnersDetermined(s, s', t, t', added, how);
    SizesDetermined(s, s', t, t', added, how);
    SameEntries(s, s', t, t', added, how);
  }

  lemma SameEntries(s: State, s': State, t: State, t': State, added: seq<Disk>, how: Strategy)
    requires SameButLeaves(s, s') && Grows(s, t, added, how) && Grows(s', t', added, how)
    ensures t.V == t'.V && t.disks == t'.disks && t.capacity == t'.capacity && t.last == t'.last
  {
  }

  lemma SizesDetermined(s: State, s': State, t: State, t': State, added: seq<Disk>, how: Strategy)
    requires Consistent(s) && Fresh(s.disks, Capacities(added)) && SameButLeaves(s, s')
    requires Grows(s, t, added, how) && Grows(s', t', added, how) && t.owners == t'.owners
    ensures t.partitions == t'.partitions
  {
    GrownSizes(s, t, added, how);
    StaysConsistent(s, s');
    GrownSizes(s', t', added, how);
    SameSizes(t, t');
  }

  lemma StaysConsistent(s: State, s': State)
    requires Consistent(s) && SameButLeaves(s, s') && Represents(s'.leaves, s.owners)
    ensures Consistent(s')
  {
  }

  lemma OwnersDetermined(s: State, s': State, t: State, t': State, added: seq<Disk>, how: Strategy)
    requires Consistent(s) && Fresh(s.disks, Capacities(added)) && SameButLeaves(s, s')
    requires Grows(s, t, added, how) && Grows(s', t', added, how) && (how.evenOdd ==> s == s')
    ensures t.owners == t'.owners
  {
    var losses := Losses(s.partitions, s.disks, s.V, t.capacity);
    var requests := Requests(losses, added, s.V, t.capacity);
    LossesCover(s, added, t.capacity);
    assert Outcome(how, s.leaves, s.owners, t.owners, losses, requests);
    assert Outcome(how, s'.leaves, s.owners, t'.owners, losses, requests);
    OutcomeDetermined(how, s.leaves, s'.leaves, s.owners, t.owners, t'.owners, losses, requests);
  }

  /** What one redistribution with this strategy may lead to. */
  ghost predicate Outcome(how: Strategy, leaves: seq<Leaf>, before: seq<nat>, after: seq<nat>, quotas: map<nat, nat>,
                          requests: seq<Request>) {
    && Redistributed(before, after, quotas, requests) && InTurn(how.sorted, before, after, requests)
    && MovedBlocksFollow(how.evenOdd, leaves, before, after, quotas)
  }

  lemma OutcomeDetermined(how: Strategy, l: seq<Leaf>, m: seq<Leaf>, before: seq<nat>, a: seq<nat>, b: seq<nat>,
                          quotas: map<nat, nat>, requests: seq<Request>)
    requires Outcome(how, l, before, a, quotas, requests) && Outcome(how, m, before, b, quotas, requests)
    requires Fresh(quotas, requests) && (how.evenOdd ==> l == m)
    ensures a == b
  {
    SameCollected(how.evenOdd, l, m, before, a, b, quotas);
    HandoverDetermined(how.sorted, before, a, b, quotas, requests);
  }

  /** The stored sizes are the owned blocks. */
  ghost predicate SizesOwned(t: State) {
    forall id | id in t.partitions :: t.partitions[id] == Owned(t.owners, id)
  }

  lemma SameSizes(t: State, t': State)
    requires t.owners == t'.owners && t.partitions.Keys == t'.partitions.Keys && SizesOwned(t) && SizesOwned(t')
    ensures t.partitions == t'.partitions
  {
  }

  lemma GrownSizes(s: State, t: State, added: seq<Disk>, how: Strategy)
    requires Consistent(s) && Fresh(s.disks, Capacities(added)) && Grows(s, t, added, how)
    ensures SizesOwned(t)
  {
    GrowthKeepsConsistent(s, t, added, how);
  }

  /** With plain collection the lists of disks and the first table decide the owner of every block in every state. */
  lemma {:induction false} RunIsDetermined(states: seq<State>, others: seq<State>, batches: seq<seq<Disk>>,
                                           how: Strategy,
                                           i: nat)
    requires Run(states, batches, how) && Run(others, batches, how) && !how.evenOdd && i < |states|
    requires SameButLeaves(states[0], others[0])
    ensures SameButLeaves(states[i], others[i])
  {
    if i > 0 {
      RunIsDetermined(states, others, batches, how, i - 1);
      RunStaysConsistent(states, batches, how, i - 1);
      StepIsDetermined(states, others, batches, how, i - 1);
    }
  }

  lemma StepIsDetermined(states: seq<State>, others: seq<State>, batches: seq<seq<Disk>>, how: Strategy, h: nat)
    requires Run(states, batches, how) && Run(others, batches, how) && !how.evenOdd && h < |batches|
    requires Consistent(states[h]) && SameButLeaves(states[h], others[h])
    ensures SameButLeaves(states[h+1], others[h+1])
  {
    assert GrowsAt(states, batches, how, h) && GrowsAt(others, batches, how, h);
    GrowthIsDetermined(states[h], others[h], states[h+1], others[h+1], batches[h], how);
  }

  /** Block x stayed where it was, or went to a disk that `s` did not know yet. */
  ghost predicate MovedForward(s: State, t: State, x: nat) {
    && x < |s.owners| && x < |t.owners| && s.disks.Keys <= t.disks.Keys
    && (t.owners[x] == s.owners[x] || t.owners[x] !in s.disks)
  }

  /** Over a whole run no block ever moves between two disks that were both there: its new owner joined later. */
  lemma {:induction false} RunMovesOnlyToLaterDisks(states: seq<State>, batches: seq<seq<Disk>>, how: Strategy,
                                                    i: nat, j: nat, x: nat)
    requires Run(states, batches, how) && i <= j < |states| && x < states[0].V
    ensures MovedForward(states[i], states[j], x)
    decreases j
  {
    RunStaysConsistent(states, batches, how, i);
    if i < j {
      RunMovesOnlyToLaterDisks(states, batches, how, i, j - 1, x);
      RunStepForward(states, batches, how, i, j - 1, x);
    }
  }

  lemma RunStepForward(states: seq<State>, batches: seq<seq<Disk>>, how: Strategy, i: nat, h: nat, x: nat)
    requires Run(states, batches, how) && i <= h < |batches| && MovedForward(states[i], states[h], x)
    ensures MovedForward(states[i], states[h+1], x)
  {
    RunStaysConsistent(states, batches, how, h);
    assert GrowsAt(states, batches, how, h);
    GrowthStepForward(states[i], states[h], states[h+1], batches[h], how, x);
  }

  lemma GrowthStepForward(r: State, s: State, t: State, added: seq<Disk>, how: Strategy, x: nat)
    requires MovedForward(r, s, x) && Consistent(s) && Fresh(s.disks, Capacities(added)) && Grows(s, t, added, how)
    ensures MovedForward(r, t, x)
  {
    GrowthMovesOnlyToNew(s, t, added, how);
  }
}
