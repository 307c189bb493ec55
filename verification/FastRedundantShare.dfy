/**
 The fast form of Redundant Share: one precomputed table per number of copies left and per disk of the
 copy before. The disk chosen for one copy always has a table for the next.
 */
module FastRedundantShare {
  import opened Arithmetic
  import opened Disks
  import opened Rationals
  import opened Capacities
  import opened RedundantShare
  import opened Probabilities
  import opened ExactWalk
  import opened ShareWeights

  /** At disk p the scan comes down to l copies. */
  ghost predicate DropsTo(left: seq<nat>, l: nat, p: nat) {
    p + 1 < |left| && left[p] == l + 1 && left[p+1] == l
  }

  /** last[l] is the last disk for the copy that has l behind it. */
  ghost predicate LastDisks(left: seq<nat>, last: seq<nat>, k: nat) {
    |last| == k && forall l | 0 <= l < k :: DropsTo(left, l, last[l])
  }

  /** Copies are given up in order, so a later copy may go further back. */
  lemma LastDisksAscend(a: seq<real>, left: seq<nat>, l: nat, p: nat, q: nat)
    requires Scanned(a, left) && DropsTo(left, l + 1, p) && DropsTo(left, l, q)
    ensures p < q
  {
    if q <= p {
      LeftComesDown(a, left, q, p);
      assert false;
    }
  }

  /**
   The scan still has a copy exactly up to its last disk: the slow walk and the tables have the same upper
   positions.
   */
  lemma StillLeft(a: seq<real>, left: seq<nat>, l: nat, last: nat, p: nat)
    requires Scanned(a, left) && DropsTo(left, l, last) && p <= |a|
    ensures left[p] > l <==> p <= last
  {
    if p <= last {
      LeftComesDown(a, left, p, last);
    } else {
      LeftComesDown(a, left, last + 1, p);
    }
  }

  /**
   One copy fewer than the scan has left fits everywhere, so no table asks a disk before its last one for
   more than a copy.
   */
  lemma TableEnds(c: seq<nat>, k: nat, l: nat, first: nat, last: nat)
    requires Good(c, k) && l > 0 && DropsTo(Schedule(c, k), l - 1, last) && first <= last
    ensures EndsAt(Quotients(c), l, first, last)
  {
    var a, left := Quotients(c), Schedule(c, k);
    QuotientsAreShares(c);
    ScheduleIsScan(c, k);
    forall v | first <= v < last ensures Load(l, a[v]) <= 1.0 {
      StillLeft(a, left, l - 1, last, v + 1);
      FitsBeforeLast(c, k, l, v);
    }
    assert ScannedAt(a[last], left[last], left[last+1]);
  }

  lemma {:induction false} FitsBeforeLast(c: seq<nat>, k: nat, l: nat, v: nat)
    requires Good(c, k) && v < |c| && 0 < l <= Remaining(c, k, v + 1)
    ensures Load(l, Quotient(c, v)) <= 1.0
  {
    TotalPositive(c[v..]);
    OneFewerFits(c, k, v);
    LoadAgainstOne(l, c[v], Total(c[v..]));
    FitsStep(Remaining(c, k, v), l, c[v], Total(c[v..]));
  }

  lemma FitsStep(left: nat, l: nat, a: nat, s: nat)
    requires (left - 1) * a <= s && 0 < l <= ScanNext(left, a, s)
    ensures l * a <= s
  {
    if ScanNext(left, a, s) < left {
      MulMonotone(l, left - 1, a);
    } else {
      MulMonotone(l, left, a);
    }
  }

  /**
   A table for copies that fit carries the landing probabilities of the slow walk exactly when its weights
   are read well.
   */
  lemma TableIsWalk(disks: seq<RSDisk>, k: nat, l: nat, first: nat, last: nat, read: Rational -> int)
    requires Good(AlignedOf(disks), k) && IsAligned(disks) && Denominated(disks) && first <= last < |disks|
    requires l > 0 && DropsTo(Schedule(AlignedOf(disks), k), l - 1, last)
    ensures var a := Quotients(AlignedOf(disks));
            && EndsAt(a, l, first, last) && Carry(disks, a)
            && (IsWalkTable(a, l, first, last, ShareOf(disks, l, first, last, read))
                <==> ReadsWell(disks, l, first, last, read))
  {
    TableEnds(AlignedOf(disks), k, l, first, last);
    AlignedDisksCarry(disks);
    WalkTableExactly(disks, Quotients(AlignedOf(disks)), l, first, last, read);
  }

  // ---- the tables ----

  type Level = map<nat, Share>

  /** The tables behind the disks from `low` up to `high`, each over the disks from the next one to `last`. */
  function TablesOf(disks: seq<RSDisk>, l: nat, low: nat, high: nat, last: nat, read: Rational -> int): Level
    requires Denominated(disks) && high <= last < |disks|
    decreases high
  {
    if high <= low then map[]
    else
      TablesOf(disks, l, low, high - 1, last, read)[disks[high-1].disk.id := ShareOf(disks, l, high, last, read)]
  }

  /** Looking up a disk finds the table behind it, and there are tables for no other disks. */
  lemma {:induction false} TableBehind(disks: seq<RSDisk>, l: nat, low: nat, high: nat, last: nat,
                                       read: Rational -> int, p: nat)
    requires Denominated(disks) && high <= last < |disks| && DistinctIds(DisksOf(disks)) && low <= p < |disks|
    ensures var level := TablesOf(disks, l, low, high, last, read);
            && (disks[p].disk.id in level <==> p < high)
            && (p < high ==> level[disks[p].disk.id] == ShareOf(disks, l, p + 1, last, read))
    decreases high
  {
    if high > low {
      TableBehind(disks, l, low, high - 1, last, read, p);
      SameDisk(disks, p, high - 1);
      Entered(TablesOf(disks, l, low, high - 1, last, read), disks[high-1].disk.id, ShareOf(disks, l, high, last, read),
          disks[p].disk.id);
    }
  }

  lemma SameDisk(disks: seq<RSDisk>, p: nat, q: nat)
    requires DistinctIds(DisksOf(disks)) && p < |disks| && q < |disks|
    ensures disks[p].disk.id == disks[q].disk.id <==> p == q
  {
    if p != q { assert DisksOf(disks)[p].id != DisksOf(disks)[q].id; }
  }

  lemma Entered(before: Level, id: nat, share: Share, other: nat)
    ensures var after := before[id := share];
            && (other in after <==> other == id || other in before)
            && (other in after ==> after[other] == if other == id then share else before[other])
  {
  }

  /** The tables for the copy with l left, by the disk of the copy before; the first copy has a single table. */
  function LevelOf(disks: seq<RSDisk>, k: nat, l: nat, last: nat, read: Rational -> int): Level
    requires Denominated(disks) && 0 < l <= k && last < |disks|
  {
    if l == k then map[0 := ShareOf(disks, k, 0, last, read)] else TablesOf(disks, l, k - l - 1, last, last, read)
  }

  /** All levels from l up to k. */
  function LevelsOf(disks: seq<RSDisk>, k: nat, l: nat, last: seq<nat>,
                    read: Rational -> int): (levels: map<nat, Level>)
    requires Denominated(disks) && 0 < l <= k == |last| && forall m | 0 <= m < k :: last[m] < |disks|
    decreases k - l
  {
    var level := LevelOf(disks, k, l, last[l-1], read);
    if l == k then map[k := level] else LevelsOf(disks, k, l + 1, last, read)[l := level]
  }

  lemma {:induction false} LevelAt(disks: seq<RSDisk>, k: nat, l: nat, last: seq<nat>,
                                   read: Rational -> int, m: nat)
    requires Denominated(disks) && 0 < l <= k == |last| && forall m | 0 <= m < k :: last[m] < |disks|
    requires l <= m <= k
    ensures var levels := LevelsOf(disks, k, l, last, read);
            m in levels && levels[m] == LevelOf(disks, k, m, last[m-1], read)
    decreases k - l
  {
    if l < m { LevelAt(disks, k, l + 1, last, read, m); }
  }

  ghost predicate WithinDisks(last: seq<nat>, disks: seq<RSDisk>) {
    forall m | 0 <= m < |last| :: last[m] < |disks|
  }

  /** The tables that belong to these disks with the shares a, for k copies that the scan drops as `left` says. */
  ghost predicate Tabled(disks: seq<RSDisk>, a: seq<real>, left: seq<nat>, k: nat, last: seq<nat>,
                         read: Rational -> int,
                         distributors: map<nat, Level>) {
    && DistinctIds(DisksOf(disks)) && Denominated(disks) && |disks| == |a| && Scanned(a, left) && 0 < k
    && LastDisks(left, last, k) && WithinDisks(last, disks)
    && distributors == LevelsOf(disks, k, 1, last, read)
  }

  /** The disk at which each copy is given up, found by one scan. */
  method FindLastDisks(disks: seq<RSDisk>, k: nat, ghost a: seq<real>, ghost left: seq<nat>) returns (last: seq<nat>)
    requires Carry(disks, a) && Scanned(a, left) && left[0] == k && left[|a|] == 0
    ensures LastDisks(left, last, k) && WithinDisks(last, disks)
  {
    var lastDisk := new nat[k](_ => 0);
    var l := k;
    for i := 0 to |disks|
      invariant l == left[i] <= k
      invariant forall m | l <= m < k :: DropsTo(left, m, lastDisk[m])
    {
      assert Carries(disks[i], a[i]) && ScannedAt(a[i], left[i], left[i+1]);
      if Load(l, Value(disks[i].checkC)) >= 1.0 {
        LoadNeedsCopy(l, a[i]);
        l := l - 1;
        lastDisk[l] := i;
      }
    }
    last := lastDisk[..];
    forall m | 0 <= m < k ensures last[m] < |disks| {
      assert DropsTo(left, m, last[m]);
    }
  }

  lemma LoadNeedsCopy(l: nat, x: real)
    requires Load(l, x) >= 1.0
    ensures l > 0
  {
  }

  method BuildLevel(disks: seq<RSDisk>, k: nat, l: nat, last: nat, read: Rational -> int)
    returns (level: Level)
    requires Denominated(disks) && 0 < l < k && last < |disks|
    ensures level == LevelOf(disks, k, l, last, read)
  {
    ghost var low := k - l - 1;
    level := map[];
    if last < k - l { return; }
    for i := k - l to last + 1
      invariant level == TablesOf(disks, l, low, i - 1, last, read)
    {
      level := AddTable(disks, l, low, i, last, read, level);
    }
  }

  method AddTable(disks: seq<RSDisk>, l: nat, ghost low: nat, i: nat, last: nat, read: Rational -> int, level: Level)
    returns (level': Level)
    requires Denominated(disks) && low < i <= last < |disks| && level == TablesOf(disks, l, low, i - 1, last, read)
    ensures level' == TablesOf(disks, l, low, i, last, read)
  {
    var share := CreateShare(disks, i, last, l, read);
    level' := level[disks[i-1].disk.id := share];
  }

  method AddLevel(disks: seq<RSDisk>, k: nat, l: nat, last: seq<nat>, read: Rational -> int,
                  distributors: map<nat, Level>) returns (more: map<nat, Level>)
    requires Denominated(disks) && 1 < l <= k == |last| && WithinDisks(last, disks)
    requires distributors == LevelsOf(disks, k, l, last, read)
    ensures more == LevelsOf(disks, k, l - 1, last, read)
  {
    var level := BuildLevel(disks, k, l - 1, last[l-2], read);
    more := distributors[l - 1 := level];
  }

  /** All levels of tables, the one for the first copy first. */
  method InitShareStructures(disks: seq<RSDisk>, k: nat, read: Rational -> int, ghost a: seq<real>,
                             ghost left: seq<nat>)
    returns (distributors: map<nat, Level>, last: seq<nat>)
    requires Carry(disks, a) && Scanned(a, left) && left[0] == k > 0 && left[|a|] == 0
    requires DistinctIds(DisksOf(disks))
    ensures Tabled(disks, a, left, k, last, read, distributors)
  {
    CarryDenominated(disks, a);
    last := FindLastDisks(disks, k, a, left);
    var share := CreateShare(disks, 0, last[k-1], k, read);
    distributors := map[k := map[0 := share]];
    var l := k;
    while l > 1
      invariant 0 < l <= k && distributors == LevelsOf(disks, k, l, last, read)
    {
      distributors := AddLevel(disks, k, l, last, read, distributors);
      l := l - 1;
    }
  }

  // ---- the policy ----

  ghost predicate PicksWithin(pick: Share -> nat) {
    forall share: Share :: share != [] ==> pick(share) < |share|
  }

  /** The table for the copy with l left, when the copy before went to disk p. */
  ghost predicate HasTable(disks: seq<RSDisk>, distributors: map<nat, Level>, l: nat, p: nat) {
    p < |disks| && l in distributors && disks[p].disk.id in distributors[l]
  }

  /** The share is a table over the disks first, ..., end. */
  ghost predicate TableOver(disks: seq<RSDisk>, first: nat, end: nat, share: Share) {
    && first <= end < |disks| && |share| == end - first + 1
    && forall t | 0 <= t < |share| :: share[t].id == disks[first+t].disk.id
  }

  /** Wherever the copies so far may have gone, the look-up for the next copy finds its table. */
  ghost predicate Closed(disks: seq<RSDisk>, k: nat, last: seq<nat>, distributors: map<nat, Level>) {
    && |last| == k > 0 && k in distributors && 0 in distributors[k]
       && TableOver(disks, 0, last[k-1], distributors[k][0])
    && forall l, p | 0 < l < k && k <= p + l + 1 && p <= last[l] :: ClosedAt(disks, last, distributors, l, p)
  }

  ghost predicate ClosedAt(disks: seq<RSDisk>, last: seq<nat>, distributors: map<nat, Level>, l: nat, p: nat)
    requires 0 < l < |last|
  {
    HasTable(disks, distributors, l, p) && TableOver(disks, p + 1, last[l-1], distributors[l][disks[p].disk.id])
  }

  lemma TablesAreClosed(disks: seq<RSDisk>, a: seq<real>, left: seq<nat>, k: nat, last: seq<nat>, read: Rational -> int,
                        distributors: map<nat, Level>)
    requires Tabled(disks, a, left, k, last, read, distributors)
    ensures Closed(disks, k, last, distributors)
  {
    FirstTable(disks, a, left, k, last, read, distributors);
    ShareIsTable(disks, k, 0, last[k-1], read);
    forall l: nat, p: nat | 0 < l < k && k <= p + l + 1 && p <= last[l]
      ensures ClosedAt(disks, last, distributors, l, p)
    {
      NextTable(disks, a, left, k, last, read, distributors, l, p);
      ShareIsTable(disks, l, p + 1, last[l-1], read);
    }
  }

  lemma ShareIsTable(disks: seq<RSDisk>, l: nat, first: nat, last: nat, read: Rational -> int)
    requires Denominated(disks) && first <= last < |disks|
    ensures TableOver(disks, first, last, ShareOf(disks, l, first, last, read))
  {
    var share := ShareOf(disks, l, first, last, read);
    forall t | 0 <= t < |share| ensures share[t].id == disks[first+t].disk.id {
      IdInShare(disks, l, first, last, read, first + t);
    }
  }

  /** positions[t] is what the table behind positions[t-1] picks for the copy with k - t left; no look-up misses. */
  ghost predicate Chosen(disks: seq<RSDisk>, k: nat, distributors: map<nat, Level>, pick: Share -> nat,
                         positions: seq<nat>)
    decreases |positions|
  {
    if |positions| <= 1 then
      positions != [] && k in distributors && 0 in distributors[k] && positions[0] == pick(distributors[k][0])
    else
      var before := positions[..|positions|-1];
      var p := before[|before|-1];
      && Chosen(disks, k, distributors, pick, before) && |before| < k && HasTable(disks, distributors, k - |before|, p)
      && positions[|before|] == p + 1 + pick(distributors[k-|before|][disks[p].disk.id])
  }

  lemma FirstTable(disks: seq<RSDisk>, a: seq<real>, left: seq<nat>, k: nat, last: seq<nat>, read: Rational -> int,
                   distributors: map<nat, Level>)
    requires Tabled(disks, a, left, k, last, read, distributors)
    ensures k in distributors && 0 in distributors[k] && last[k-1] < |disks| == |a|
    ensures distributors[k][0] == ShareOf(disks, k, 0, last[k-1], read)
  {
    LevelAt(disks, k, 1, last, read, k);
  }

  /**
   A disk that may take the copy before has a table for this copy, and the table ends where the slow walk
   must end.
   */
  lemma NextTable(disks: seq<RSDisk>, a: seq<real>, left: seq<nat>, k: nat, last: seq<nat>, read: Rational -> int,
                  distributors: map<nat, Level>, l: nat, p: nat)
    requires Tabled(disks, a, left, k, last, read, distributors) && 0 < l < k && k <= p + l + 1 && p <= last[l]
    ensures p < last[l-1] < |disks| == |a| && HasTable(disks, distributors, l, p)
    ensures distributors[l][disks[p].disk.id] == ShareOf(disks, l, p + 1, last[l-1], read)
  {
    var end := last[l-1];
    LastDisksAscend(a, left, l - 1, last[l], end);
    LevelAt(disks, k, 1, last, read, l);
    assert distributors[l] == TablesOf(disks, l, k - l - 1, end, end, read);
    TableBehind(disks, l, k - l - 1, end, end, read, p);
  }

  /** Chosen positions strictly increase and never pass the disk where the slow walk gives up the copy. */
  ghost predicate InBounds(positions: seq<nat>, k: nat, last: seq<nat>) {
    && |positions| <= k == |last|
    && (forall t | 0 <= t < |positions| :: t <= positions[t] <= last[k-1-t])
    && (forall t, u | 0 <= t < u < |positions| :: positions[t] < positions[u])
  }

  lemma {:induction false} ChooseOne(disks: seq<RSDisk>, k: nat, distributors: map<nat, Level>, pick: Share -> nat,
                                     positions: seq<nat>, l: nat, p: nat, q: nat)
    requires Chosen(disks, k, distributors, pick, positions) && 0 < l == k - |positions|
    requires positions != [] && p == positions[|positions|-1] && HasTable(disks, distributors, l, p)
    requires q == p + 1 + pick(distributors[l][disks[p].disk.id])
    ensures Chosen(disks, k, distributors, pick, positions + [q])
  {
    assert (positions + [q])[..|positions|] == positions;
  }

  /** The table for copy t: that of the first copy, or the one behind the disk of the copy before. */
  ghost function TableFor(disks: seq<RSDisk>, k: nat, distributors: map<nat, Level>, positions: seq<nat>, t: nat): Share
    requires t < |positions|
  {
    if t == 0 then
      if k in distributors && 0 in distributors[k] then distributors[k][0] else []
    else if t <= k && HasTable(disks, distributors, k - t, positions[t-1]) then
      distributors[k-t][disks[positions[t-1]].disk.id]
    else []
  }

  /** Every copy goes to the disk of the table entry that was picked. */
  lemma {:induction false} ChosenAsPicked(disks: seq<RSDisk>, k: nat, last: seq<nat>, distributors: map<nat, Level>,
                                          pick: Share -> nat, positions: seq<nat>, t: nat)
    requires Closed(disks, k, last, distributors) && PicksWithin(pick)
    requires Chosen(disks, k, distributors, pick, positions) && t < |positions|
    ensures var share := TableFor(disks, k, distributors, positions, t);
            && positions[t] < |disks| && share != []
            && disks[positions[t]].disk.id == share[pick(share)].id
    decreases |positions|
  {
    var n := |positions| - 1;
    if t < n {
      ChosenAsPicked(disks, k, last, distributors, pick, positions[..n], t);
      SameTable(disks, k, distributors, positions, t);
    } else if t > 0 {
      ChosenInBounds(disks, k, last, distributors, pick, positions[..n]);
      LastInBounds(positions[..n], k, last);
      PickedBehind(disks, k, last, distributors, pick, k - t, positions[t-1]);
    } else {
      PickedFirst(disks, k, last, distributors, pick);
    }
  }

  lemma SameTable(disks: seq<RSDisk>, k: nat, distributors: map<nat, Level>, positions: seq<nat>, t: nat)
    requires t < |positions| - 1
    ensures TableFor(disks, k, distributors, positions, t)
         == TableFor(disks, k, distributors, positions[..|positions|-1], t)
  {
  }

  lemma PickedFirst(disks: seq<RSDisk>, k: nat, last: seq<nat>, distributors: map<nat, Level>, pick: Share -> nat)
    requires Closed(disks, k, last, distributors) && PicksWithin(pick)
    ensures k in distributors && 0 in distributors[k]
    ensures var share := distributors[k][0];
            share != [] && pick(share) < |disks| && disks[pick(share)].disk.id == share[pick(share)].id
  {
    assert pick(distributors[k][0]) < |distributors[k][0]|;
  }

  lemma PickedBehind(disks: seq<RSDisk>, k: nat, last: seq<nat>, distributors: map<nat, Level>, pick: Share -> nat,
                     l: nat, p: nat)
    requires Closed(disks, k, last, distributors) && PicksWithin(pick)
    requires 0 < l < k && k <= p + l + 1 && p <= last[l]
    ensures HasTable(disks, distributors, l, p)
    ensures var share := distributors[l][disks[p].disk.id];
            && share != [] && p + 1 + pick(share) < |disks|
            && disks[p+1+pick(share)].disk.id == share[pick(share)].id
  {
    assert ClosedAt(disks, last, distributors, l, p);
    var share := distributors[l][disks[p].disk.id];
    assert pick(share) < |share|;
  }

  /** With closed tables no copy goes past the last disk that the slow walk allows it. */
  lemma {:induction false} ChosenInBounds(disks: seq<RSDisk>, k: nat, last: seq<nat>, distributors: map<nat, Level>,
                                          pick: Share -> nat, positions: seq<nat>)
    requires Closed(disks, k, last, distributors) && PicksWithin(pick)
    requires Chosen(disks, k, distributors, pick, positions)
    ensures InBounds(positions, k, last)
    decreases |positions|
  {
    if |positions| == 1 {
      assert pick(distributors[k][0]) < |distributors[k][0]|;
    } else {
      var before := positions[..|positions|-1];
      ChosenInBounds(disks, k, last, distributors, pick, before);
      LastInBounds(before, k, last);
      var l, p := k - |before|, before[|before|-1];
      assert ClosedAt(disks, last, distributors, l, p);
      var share := distributors[l][disks[p].disk.id];
      assert pick(share) < |share|;
      OneMoreInBounds(before, k, last, p + 1 + pick(share));
      assert positions == before + [p + 1 + pick(share)];
    }
  }

  lemma LastInBounds(positions: seq<nat>, k: nat, last: seq<nat>)
    requires InBounds(positions, k, last) && positions != []
    ensures |positions| <= positions[|positions|-1] + 1 && positions[|positions|-1] <= last[k-|positions|]
  {
  }

  lemma OneMoreInBounds(positions: seq<nat>, k: nat, last: seq<nat>, p: nat)
    requires InBounds(positions, k, last) && |positions| < k
    requires NextStart(positions) <= p <= last[k-1-|positions|]
    ensures InBounds(positions + [p], k, last)
  {
  }

  class DistFastRedundantShare {
    const copies: nat
    var disks: map<nat, Disk>
    var distributors: map<nat, Level>
    /** The disks in placement order, the last disk of every copy, and how weights are read. */
    ghost var ordered: seq<RSDisk>
    ghost var last: seq<nat>
    ghost var read: Rational -> int

    /** Holds once disks have been set. */
    ghost predicate Valid()
      reads this
    {
      TabledFor(ordered, copies, last, read, distributors) && ById(disks, ordered)
    }

    constructor (copies: nat)
      ensures this.copies == copies
    {
      this.copies := copies;
      disks, distributors := map[], map[];
      ordered, last, read := [], [], ReadNumerator;
    }

    /** The disks in the order of Redundant Share; the corrected values it is given play no part in the tables. */
    method SetDisks(newDisks: seq<Disk>, errorValues: seq<nat>, read: Rational -> int)
      requires 0 < copies <= |newDisks| && |errorValues| == copies
      requires DistinctIds(newDisks) && Positive(CapacitiesOf(newDisks)) && ScanEnds(newDisks, copies, false)
      modifies this
      ensures Valid() && this.read == read && Prepared(newDisks, copies, false, ordered)
    {
      ghost var rsDisks, lasts;
      disks, distributors, rsDisks, lasts := AllTables(newDisks, copies, errorValues, read);
      Install(rsDisks, lasts, read);
    }

    ghost method Install(ordered: seq<RSDisk>, last: seq<nat>, read: Rational -> int)
      requires TabledFor(ordered, copies, last, read, distributors) && ById(disks, ordered)
      modifies `ordered, `last, `read
      ensures Valid() && this.ordered == ordered && this.read == read
    {
      this.ordered, this.last, this.read := ordered, last, read;
    }

    /** The disks of the k copies of one extent; `pick` is where the hash of the extent falls within a table. */
    method PlaceExtent(pick: Share -> nat) returns (used: seq<Disk>, ghost positions: seq<nat>)
      requires Valid() && PicksWithin(pick)
      ensures |positions| == copies && Chosen(ordered, copies, distributors, pick, positions)
      ensures TakenFrom(ordered, positions, used) && DistinctIds(used)
      ensures InBounds(positions, copies, last)
    {
      ghost var c := AlignedOf(ordered);
      TablesAreClosed(ordered, Quotients(c), Schedule(c, copies), copies, last, read, distributors);
      used, positions := PlaceByTables(disks, distributors, copies, pick, ordered, last);
      ChosenInBounds(ordered, copies, last, distributors, pick, positions);
      AscendingDistinct(ordered, used, positions);
    }
  }

  method AllTables(newDisks: seq<Disk>, k: nat, errorValues: seq<nat>, read: Rational -> int)
    returns (byId: map<nat, Disk>, distributors: map<nat, Level>, ghost ordered: seq<RSDisk>, ghost last: seq<nat>)
    requires 0 < k <= |newDisks| && |errorValues| == k
    requires DistinctIds(newDisks) && Positive(CapacitiesOf(newDisks)) && ScanEnds(newDisks, k, false)
    ensures TabledFor(ordered, k, last, read, distributors) && ById(byId, ordered)
            && Prepared(newDisks, k, false, ordered)
  {
    byId := DisksById(newDisks);
    var rsDisks := RSDisks(newDisks, k, errorValues);
    SameById(byId, newDisks, rsDisks);
    var levels, lasts := TablesOfPolicy(rsDisks, k, read);
    distributors, ordered, last := levels, rsDisks, lasts;
  }

  /** The disks as the slow form orders and aligns them. */
  method RSDisks(newDisks: seq<Disk>, k: nat, errorValues: seq<nat>) returns (disks: seq<RSDisk>)
    requires 0 < k <= |newDisks| && |errorValues| == k && DistinctIds(newDisks) && Positive(CapacitiesOf(newDisks))
    requires ScanEnds(newDisks, k, false)
    ensures Prepared(newDisks, k, false, disks) && Ready(disks, k)
  {
    var rs := new DistRedundantShare(k, false);
    rs.SetDisks(newDisks, errorValues);
    disks := rs.disks;
    PreparedBounds(newDisks, k, false, disks);
    ScanEndsExactly(newDisks, k, false, disks);
  }

  /** The tables are those of the aligned disks in placement order, for k copies. */
  ghost predicate TabledFor(disks: seq<RSDisk>, k: nat, last: seq<nat>, read: Rational -> int,
                            distributors: map<nat, Level>) {
    var c := AlignedOf(disks);
    IsAligned(disks) && Positive(c) && Tabled(disks, Quotients(c), Schedule(c, k), k, last, read, distributors)
  }

  /** Clipped disks among which the scan gives up all k copies. */
  ghost predicate Ready(disks: seq<RSDisk>, k: nat) {
    IsAligned(disks) && Positive(AlignedOf(disks)) && DistinctIds(DisksOf(disks))
        && Remaining(AlignedOf(disks), k, |disks|) == 0
  }

  method TablesOfPolicy(disks: seq<RSDisk>, k: nat, read: Rational -> int)
    returns (distributors: map<nat, Level>, last: seq<nat>)
    requires k > 0 && Ready(disks, k)
    ensures TabledFor(disks, k, last, read, distributors)
  {
    ghost var c := AlignedOf(disks);
    ScheduleIsScan(c, k);
    AlignedDisksCarry(disks);
    distributors, last := InitShareStructures(disks, k, read, Quotients(c), Schedule(c, k));
  }

  ghost predicate ById(byId: map<nat, Disk>, disks: seq<RSDisk>) {
    forall i | 0 <= i < |disks| :: disks[i].disk.id in byId && byId[disks[i].disk.id] == disks[i].disk
  }

  method DisksById(newDisks: seq<Disk>) returns (byId: map<nat, Disk>)
    requires DistinctIds(newDisks)
    ensures forall i | 0 <= i < |newDisks| :: newDisks[i].id in byId && byId[newDisks[i].id] == newDisks[i]
  {
    byId := map[];
    for i := 0 to |newDisks|
      invariant forall j | 0 <= j < i :: newDisks[j].id in byId && byId[newDisks[j].id] == newDisks[j]
    {
      byId := byId[newDisks[i].id := newDisks[i]];
    }
  }

  lemma SameById(byId: map<nat, Disk>, newDisks: seq<Disk>, disks: seq<RSDisk>)
    requires forall i | 0 <= i < |newDisks| :: newDisks[i].id in byId && byId[newDisks[i].id] == newDisks[i]
    requires multiset(DisksOf(disks)) == multiset(newDisks)
    ensures ById(byId, disks)
  {
    forall i | 0 <= i < |disks| ensures disks[i].disk.id in byId && byId[disks[i].disk.id] == disks[i].disk {
      assert DisksOf(disks)[i] in multiset(DisksOf(disks));
      assert DisksOf(disks)[i] in newDisks;
    }
  }

  method PlaceByTables(byId: map<nat, Disk>, distributors: map<nat, Level>, k: nat, pick: Share -> nat,
                       ghost disks: seq<RSDisk>, ghost last: seq<nat>)
    returns (used: seq<Disk>, ghost positions: seq<nat>)
    requires Closed(disks, k, last, distributors) && ById(byId, disks) && PicksWithin(pick)
    ensures |positions| == k && Chosen(disks, k, distributors, pick, positions)
    ensures TakenFrom(disks, positions, used)
  {
    var d;
    ghost var p;
    d, p := Choose(distributors[k][0], byId, pick, disks, 0, last[k-1]);
    used, positions := [d], [p];
    var l := k - 1;
    while l > 0
      invariant 0 <= l < k && |positions| == k - l && p == positions[|positions|-1] < |disks| && d == disks[p].disk
      invariant k <= p + l + 1 && p <= last[l]
      invariant Chosen(disks, k, distributors, pick, positions)
      invariant TakenFrom(disks, positions, used)
    {
      assert ClosedAt(disks, last, distributors, l, p);
      ghost var q;
      d, q := Choose(distributors[l][d.id], byId, pick, disks, p + 1, last[l-1]);
      TakeOne(disks, positions, used, q);
      ChooseOne(disks, k, distributors, pick, positions, l, p, q);
      p := q;
      used, positions := used + [d], positions + [p];
      l := l - 1;
    }
  }

  /** The disk that a table picks, as it was given to the policy. */
  method Choose(share: Share, byId: map<nat, Disk>, pick: Share -> nat, ghost disks: seq<RSDisk>, ghost first: nat,
                ghost end: nat)
    returns (disk: Disk, ghost p: nat)
    requires TableOver(disks, first, end, share) && ById(byId, disks) && PicksWithin(pick)
    ensures p == first + pick(share) <= end && disk == disks[p].disk
  {
    assert pick(share) < |share|;
    p := first + pick(share);
    disk := byId[share[pick(share)].id];
  }

  /**
   For every copy and every disk the copy before may be on, the table that is looked up is the slow walk
   from there on exactly when its weights are read well.
   */
  lemma EveryTableIsWalk(newDisks: seq<Disk>, disks: seq<RSDisk>, k: nat, last: seq<nat>, read: Rational -> int,
                         distributors: map<nat, Level>, l: nat, p: nat)
    requires FittingTables(newDisks, disks, k, last, read, distributors)
    requires 0 < l < k && k <= p + l + 1 && p <= last[l]
    ensures p < last[l-1] < |disks| && HasTable(disks, distributors, l, p)
    ensures var a := Quotients(AlignedOf(disks));
            && EndsAt(a, l, p + 1, last[l-1]) && Carry(disks, a)
            && (IsWalkTable(a, l, p + 1, last[l-1], distributors[l][disks[p].disk.id])
                <==> ReadsWell(disks, l, p + 1, last[l-1], read))
  {
    TablesFit(newDisks, disks, k, last, read, distributors);
    NextTable(disks, Quotients(AlignedOf(disks)), Schedule(AlignedOf(disks), k), k, last, read, distributors, l, p);
    TableIsWalk(disks, k, l, p + 1, last[l-1], read);
  }

  /** The same for the table of the first copy. */
  lemma FirstTableIsWalk(newDisks: seq<Disk>, disks: seq<RSDisk>, k: nat, last: seq<nat>, read: Rational -> int,
                         distributors: map<nat, Level>)
    requires FittingTables(newDisks, disks, k, last, read, distributors)
    ensures last[k-1] < |disks| && k in distributors && 0 in distributors[k]
    ensures var a := Quotients(AlignedOf(disks));
            && EndsAt(a, k, 0, last[k-1]) && Carry(disks, a)
            && (IsWalkTable(a, k, 0, last[k-1], distributors[k][0])
                <==> ReadsWell(disks, k, 0, last[k-1], read))
  {
    TablesFit(newDisks, disks, k, last, read, distributors);
    FirstTable(disks, Quotients(AlignedOf(disks)), Schedule(AlignedOf(disks), k), k, last, read, distributors);
    TableIsWalk(disks, k, k, 0, last[k-1], read);
  }

  /**
   With the reader as it is, every table that is looked up is the slow walk exactly when the 64 bits read of
   the stored numerators are the weights.
   */
  lemma EveryTableAsRead(newDisks: seq<Disk>, disks: seq<RSDisk>, k: nat, last: seq<nat>,
                         distributors: map<nat, Level>, l: nat, p: nat)
    requires FittingTables(newDisks, disks, k, last, ReadNumerator, distributors)
    requires 0 < l < k && k <= p + l + 1 && p <= last[l]
    ensures p < last[l-1] < |disks| && HasTable(disks, distributors, l, p)
    ensures IsWalkTable(Quotients(AlignedOf(disks)), l, p + 1, last[l-1], distributors[l][disks[p].disk.id])
       <==> ReadAsWeights(disks, l, p + 1, last[l-1])
  {
    EveryTableIsWalk(newDisks, disks, k, last, ReadNumerator, distributors, l, p);
    ReadsNumerators(disks, l, p + 1, last[l-1]);
  }

  /** The same for the table of the first copy. */
  lemma FirstTableAsRead(newDisks: seq<Disk>, disks: seq<RSDisk>, k: nat, last: seq<nat>,
                         distributors: map<nat, Level>)
    requires FittingTables(newDisks, disks, k, last, ReadNumerator, distributors)
    ensures last[k-1] < |disks| && k in distributors && 0 in distributors[k]
    ensures IsWalkTable(Quotients(AlignedOf(disks)), k, 0, last[k-1], distributors[k][0])
       <==> ReadAsWeights(disks, k, 0, last[k-1])
  {
    FirstTableIsWalk(newDisks, disks, k, last, ReadNumerator, distributors);
    ReadsNumerators(disks, k, 0, last[k-1]);
  }

  /** The tables of disks whose capacities were clipped without a slip. */
  ghost predicate FittingTables(newDisks: seq<Disk>, disks: seq<RSDisk>, k: nat, last: seq<nat>,
                                read: Rational -> int, distributors: map<nat, Level>)
  {
    && 0 < k <= |newDisks| && Positive(CapacitiesOf(newDisks)) && Prepared(newDisks, k, false, disks)
    && NeverSlips(CapacitiesOf(DisksOf(disks)), k - 1)
    && TabledFor(disks, k, last, read, distributors)
  }

  lemma TablesFit(newDisks: seq<Disk>, disks: seq<RSDisk>, k: nat, last: seq<nat>, read: Rational -> int,
                  distributors: map<nat, Level>)
    requires FittingTables(newDisks, disks, k, last, read, distributors)
    ensures Good(AlignedOf(disks), k) && IsAligned(disks) && |last| == k
    ensures Tabled(disks, Quotients(AlignedOf(disks)), Schedule(AlignedOf(disks), k), k, last, read, distributors)
  {
    PreparedFits(newDisks, k, false, disks);
  }
}
