/**
 Redundant Share: k copies are placed by one walk over the disks in descending order of capacity.
 The walk never runs past the last disk, whatever the hash values are.
 */
module RedundantShare {
  import opened Arithmetic
  import opened Disks
  import opened Capacities
  import opened Rationals

  const MAX_UINT64: nat := 0xFFFF_FFFF_FFFF_FFFF

  datatype RSDisk = RSDisk(disk: Disk, alignedCapacity: nat, cPosition: nat, checkC: Rational, kError: int)

  // ---- thresholds and the walk ----

  /** The copy number whose first trial at disk q uses a corrected value, or -1. */
  function KError(c: seq<nat>, k: nat, q: nat): int
    requires q < |c|
  {
    ErrorNext(Remaining(c, k, q), c[q], Total(c[q..]))
  }

  /** l - 1 at a disk of capacity a that l copies would overfill, when the disks from there on hold s. */
  function ErrorNext(l: nat, a: nat, s: nat): int {
    if l * a > s then l - 1 else -1
  }

  /**
   h is the whole part of l * a / s of the hash range, and the largest hash where l copies fill a disk of
   capacity a among disks that hold s.
   */
  ghost predicate IsThreshold(h: nat, a: nat, s: nat, l: nat) {
    if l * a >= s then h == MAX_UINT64 else h * s <= (l * a) * MAX_UINT64 < (h + 1) * s
  }

  /** Exactly a disk that must take the copy gets the largest threshold. */
  lemma FullShareSaturates(h: nat, a: nat, s: nat, l: nat)
    requires s > 0 && IsThreshold(h, a, s, l)
    ensures h <= MAX_UINT64 && (h == MAX_UINT64 <==> l * a >= s)
  {
    if l * a < s {
      MulMonotone(l * a + 1, s, MAX_UINT64);
      if h >= MAX_UINT64 { MulMonotone(MAX_UINT64, h, s); }
    }
  }

  /** What the division gives, cut off at the largest hash. */
  lemma DividedIsThreshold(a: nat, s: nat, l: nat)
    requires s > 0
    ensures var value := a * MAX_UINT64 * l / s;
            value >= 0 && IsThreshold(if value >= MAX_UINT64 then MAX_UINT64 else value, a, s, l)
  {
    var x := (l * a) * MAX_UINT64;
    var value := x / s;
    assert a * MAX_UINT64 * l == x;
    DivisionBounds(x, s);
    if l * a >= s {
      MulMonotone(s, l * a, MAX_UINT64);
      if value < MAX_UINT64 { MulMonotone(value + 1, MAX_UINT64, s); }
    } else {
      MulMonotone(l * a + 1, s, MAX_UINT64);
      if value >= MAX_UINT64 { MulMonotone(MAX_UINT64, value, s); }
    }
  }

  /** left[q] copies are still to be placed when the scan reaches disk q. */
  function Schedule(c: seq<nat>, k: nat): (r: seq<nat>)
    ensures |r| == |c| + 1 && forall q | 0 <= q <= |c| :: r[q] == Remaining(c, k, q)
  {
    seq(|c| + 1, q requires 0 <= q <= |c| => Remaining(c, k, q))
  }

  /**
   The tables of a configured policy: the schedule of the scan, the threshold of each disk for each
   number of copies left, and the corrected thresholds.
   */
  datatype Tables = Tables(left: seq<nat>, hashValues: seq<seq<nat>>, kErrors: seq<int>, errorValues: seq<nat>)

  /** The schedule comes down from k one by one, and exactly where it drops the threshold is the largest hash value. */
  ghost predicate Stepped(w: Tables) {
    && |w.left| == |w.hashValues| + 1 == |w.kErrors| + 1
    && w.left[0] == |w.errorValues|
    && (forall q | 0 <= q < |w.hashValues| :: |w.hashValues[q]| == |w.errorValues|)
    && (forall q | 0 <= q < |w.hashValues| :: DropsAt(w, q))
    && (forall q | 0 <= q < |w.kErrors| && w.kErrors[q] != -1 :: w.kErrors[q] + 1 == w.left[q])
  }

  ghost predicate DropsAt(w: Tables, q: nat)
    requires q < |w.hashValues| < |w.left|
  {
    && w.left[q] - 1 <= w.left[q+1] <= w.left[q] <= |w.errorValues|
    && (w.left[q] > 0 ==>
          && w.left[q] <= |w.hashValues[q]| && w.hashValues[q][w.left[q]-1] <= MAX_UINT64
          && (w.left[q+1] < w.left[q] <==> w.hashValues[q][w.left[q]-1] == MAX_UINT64))
  }

  /** The scan has given up every copy by the last disk. */
  ghost predicate Sound(w: Tables) {
    Stepped(w) && w.left[|w.left|-1] == 0
  }

  /** What the hash of disk i is compared with when l copies are left and the walk for this copy began at `start`. */
  function Threshold(w: Tables, i: nat, l: nat, start: nat): nat
    requires i < |w.kErrors| && i < |w.hashValues| && 0 < l <= |w.errorValues| && l <= |w.hashValues[i]|
  {
    if i == start && w.kErrors[i] == l then w.errorValues[l-1] else w.hashValues[i][l-1]
  }

  /** A disk that rejects a copy leaves enough disks behind it for that copy. */
  lemma MissLeavesRoom(w: Tables, i: nat, l: nat, start: nat, dice: nat)
    requires Sound(w) && i < |w.hashValues| && 0 < l <= w.left[i] && dice <= MAX_UINT64
    ensures l <= |w.errorValues|
    ensures dice > Threshold(w, i, l, start) ==> l <= w.left[i+1] && i + 1 < |w.hashValues|
  {
    assert DropsAt(w, i);
  }

  /** Disk i rejects the copy. */
  ghost predicate Rejects(w: Tables, dice: seq<nat>, l: nat, start: nat, i: nat) {
    && i < |dice| && i < |w.kErrors| && i < |w.hashValues| && 0 < l <= |w.errorValues| && l <= |w.hashValues[i]|
    && dice[i] > Threshold(w, i, l, start)
  }

  /** The disks from `start` up to p all reject the copy. */
  ghost predicate Passed(w: Tables, dice: seq<nat>, l: nat, start: nat, p: nat) {
    p == start || (p > start && Rejects(w, dice, l, start, p - 1) && Passed(w, dice, l, start, p - 1))
  }

  /** The copy with l left, starting at `start`, lands at p: everything before p rejects it and p accepts it. */
  ghost predicate LandsAt(w: Tables, dice: seq<nat>, l: nat, start: nat, p: nat) {
    Passed(w, dice, l, start, p) && p < |w.hashValues| && !Rejects(w, dice, l, start, p)
  }

  /**
   The copy lands at p exactly if every disk from `start` up to p has a hash above its threshold and p has not;
   only the first disk tried may have a corrected threshold, the one for this number of copies left.
   */
  lemma LandsExactly(w: Tables, dice: seq<nat>, l: nat, start: nat, p: nat)
    requires Stepped(w) && HashesOf(w, dice) && 0 < l <= |w.errorValues|
    ensures LandsAt(w, dice, l, start, p) <==>
              && start <= p < |w.hashValues|
              && (forall q | start < q < p :: dice[q] > w.hashValues[q][l-1])
              && (p > start ==> dice[p] <= w.hashValues[p][l-1])
              && var first := if w.kErrors[start] == l then w.errorValues[l-1] else w.hashValues[start][l-1];
                 if p > start then dice[start] > first else dice[start] <= first
  {
    PassedExactly(w, dice, l, start, p);
    if start <= p < |w.hashValues| {
      forall q | start <= q <= p ensures Rejects(w, dice, l, start, q) <==> dice[q] > Threshold(w, q, l, start) {}
    }
  }

  lemma {:induction false} PassedExactly(w: Tables, dice: seq<nat>, l: nat, start: nat, p: nat)
    requires Stepped(w) && HashesOf(w, dice) && 0 < l <= |w.errorValues|
    ensures Passed(w, dice, l, start, p)
       <==> start <= p && forall q | start <= q < p :: Rejects(w, dice, l, start, q)
  {
    if p > start { PassedExactly(w, dice, l, start, p - 1); }
  }

  /** The walk for the next copy begins behind the disk of the last one. */
  function NextStart(positions: seq<nat>): nat {
    if positions == [] then 0 else positions[|positions|-1] + 1
  }

  /** positions[t] is where the copy with k - t left lands, the walk for it beginning behind positions[t-1]. */
  ghost predicate Landed(w: Tables, dice: seq<nat>, positions: seq<nat>)
    decreases |positions|
  {
    positions == [] ||
    (var before := positions[..|positions|-1];
     && |positions| <= |w.errorValues| && Landed(w, dice, before)
     && LandsAt(w, dice, |w.errorValues| - |before|, NextStart(before), positions[|before|]))
  }

  ghost predicate HashesOf(w: Tables, dice: seq<nat>) {
    |dice| == |w.hashValues| && forall i | 0 <= i < |dice| :: dice[i] <= MAX_UINT64
  }

  /** Copy t of k goes to a disk at which the scan still had it. */
  ghost predicate InTime(left: seq<nat>, k: nat, positions: seq<nat>) {
    forall t | 0 <= t < |positions| :: positions[t] + 1 < |left| && k - t <= left[positions[t]]
  }

  /**
   Every copy lands no later than the disk where the scan gave it up, and the disks are in strictly
   ascending order.
   */
  lemma {:induction false} LandedInTime(w: Tables, dice: seq<nat>, positions: seq<nat>)
    requires Sound(w) && HashesOf(w, dice) && Landed(w, dice, positions)
    ensures InTime(w.left, |w.errorValues|, positions)
    ensures forall t, u | 0 <= t < u < |positions| :: positions[t] < positions[u]
    decreases |positions|
  {
    if positions != [] {
      var before := positions[..|positions|-1];
      LandedInTime(w, dice, before);
      if before != [] { assert DropsAt(w, before[|before|-1]); }
      RoomAt(w, dice, |w.errorValues| - |before|, NextStart(before), positions[|before|]);
    }
  }

  /** All copies find their disks. */
  ghost predicate PlacesAll(w: Tables, dice: seq<nat>) {
    exists positions: seq<nat> :: |positions| == |w.errorValues| && Landed(w, dice, positions)
  }

  /**
   Every copy of every extent finds a disk, whatever the hashes are, exactly when the scan has given
   up every copy by the last disk; the corrected values make no difference.
   */
  lemma WalkStaysExactly(w: Tables)
    requires Stepped(w)
    ensures (forall dice | HashesOf(w, dice) :: PlacesAll(w, dice)) <==> Sound(w)
  {
    if Sound(w) {
      forall dice | HashesOf(w, dice) ensures PlacesAll(w, dice) {
        var positions := LandFirst(w, dice, |w.errorValues|);
      }
    } else {
      var top := TopHashes(|w.hashValues|);
      forall positions | Landed(w, top, positions) ensures |positions| < |w.errorValues| {
        FollowsScan(w, positions);
        LeftDescends(w, NextStart(positions), |w.hashValues|);
      }
      assert HashesOf(w, top) && !PlacesAll(w, top);
    }
  }

  function TopHashes(n: nat): (dice: seq<nat>)
    ensures |dice| == n && forall i | 0 <= i < n :: dice[i] == MAX_UINT64
  {
    seq(n, _ => MAX_UINT64)
  }

  lemma {:induction false} LeftDescends(w: Tables, p: nat, q: nat)
    requires Stepped(w) && p <= q < |w.left|
    ensures w.left[q] <= w.left[p]
    decreases q
  {
    if p < q {
      LeftDescends(w, p, q - 1);
      assert DropsAt(w, q - 1);
    }
  }

  /** The largest hashes push every copy to the very disk where the scan gives it up. */
  lemma {:induction false} FollowsScan(w: Tables, positions: seq<nat>)
    requires Stepped(w) && Landed(w, TopHashes(|w.hashValues|), positions)
    ensures |positions| <= |w.errorValues| && NextStart(positions) < |w.left|
    ensures w.left[NextStart(positions)] == |w.errorValues| - |positions|
    decreases |positions|
  {
    if positions != [] {
      var before := positions[..|positions|-1];
      FollowsScan(w, before);
      PassesScan(w, |w.errorValues| - |before|, NextStart(before), positions[|before|]);
      TopDecides(w, |w.errorValues| - |before|, NextStart(before), positions[|before|]);
    }
  }

  lemma {:induction false} PassesScan(w: Tables, l: nat, start: nat, p: nat)
    requires Stepped(w) && start < |w.left| && w.left[start] == l > 0
    requires Passed(w, TopHashes(|w.hashValues|), l, start, p)
    ensures start <= p < |w.left| && w.left[p] == l
    decreases p
  {
    if p > start {
      PassesScan(w, l, start, p - 1);
      TopDecides(w, l, start, p - 1);
    }
  }

  /** A disk takes the copy with the largest hash exactly when the scan gives the copy up there. */
  lemma TopDecides(w: Tables, l: nat, start: nat, i: nat)
    requires Stepped(w) && i < |w.hashValues| && w.left[i] == l > 0
    ensures Rejects(w, TopHashes(|w.hashValues|), l, start, i) <==> w.left[i+1] == l
    ensures !Rejects(w, TopHashes(|w.hashValues|), l, start, i) ==> w.left[i+1] == l - 1
  {
    assert DropsAt(w, i);
  }

  /** The first n copies land, and leave enough disks for the others. */
  lemma {:induction false} LandFirst(w: Tables, dice: seq<nat>, n: nat) returns (positions: seq<nat>)
    requires Sound(w) && HashesOf(w, dice) && n <= |w.errorValues|
    ensures |positions| == n && Landed(w, dice, positions)
    ensures NextStart(positions) < |w.left| && |w.errorValues| - n <= w.left[NextStart(positions)]
  {
    positions := [];
    if n > 0 {
      var before := LandFirst(w, dice, n - 1);
      var l, start := |w.errorValues| - |before|, NextStart(before);
      WalkStarts(w, dice, l, start);
      var p := LandOne(w, dice, l, start, start);
      LandedNext(w, dice, before, |w.errorValues| - |before|, NextStart(before), p);
      positions := before + [p];
    }
  }

  lemma {:induction false} LandOne(w: Tables, dice: seq<nat>, l: nat, start: nat, i: nat) returns (p: nat)
    requires Sound(w) && HashesOf(w, dice) && Walking(w, dice, l, start, i)
    ensures p < |w.hashValues| && LandsAt(w, dice, l, start, p) && l - 1 <= w.left[p+1]
    decreases |w.hashValues| - i
  {
    if dice[i] > Threshold(w, i, l, start) {
      WalkOn(w, dice, l, start, i);
      p := LandOne(w, dice, l, start, i + 1);
    } else {
      WalkEnds(w, dice, l, start, i);
      p := i;
    }
  }

  lemma {:induction false} RoomAt(w: Tables, dice: seq<nat>, l: nat, start: nat, p: nat)
    requires Sound(w) && HashesOf(w, dice) && 0 < l && Passed(w, dice, l, start, p) && p <= |w.hashValues|
    requires start < |w.left| && l <= w.left[start]
    ensures start <= p && l <= w.left[p]
    decreases p
  {
    if p > start {
      RoomAt(w, dice, l, start, p - 1);
      MissLeavesRoom(w, p - 1, l, start, dice[p-1]);
    }
  }

  // ---- the ordered set of disks ----

  /** Larger disks first; equal ones by ascending id, or descending when reverted. */
  predicate Before(a: Disk, b: Disk, revert: bool) {
    a.capacity > b.capacity || (a.capacity == b.capacity && (if revert then a.id > b.id else a.id < b.id))
  }

  ghost predicate Ordered(s: seq<Disk>, revert: bool) {
    forall i, j | 0 <= i < j < |s| :: Before(s[i], s[j], revert)
  }

  /** Insertion into an ordered set; a disk equivalent to one already there is not inserted. */
  function InsertDisk(d: Disk, s: seq<Disk>, revert: bool): seq<Disk> {
    if s == [] || Before(d, s[0], revert) then [d] + s
    else if Before(s[0], d, revert) then [s[0]] + InsertDisk(d, s[1..], revert)
    else s
  }

  /** The disks as an ordered set holds them after inserting one after the other. */
  function OrderedDisks(newDisks: seq<Disk>, revert: bool): seq<Disk>
    decreases |newDisks|
  {
    if newDisks == [] then []
    else InsertDisk(newDisks[|newDisks|-1], OrderedDisks(newDisks[..|newDisks|-1], revert), revert)
  }

  lemma InsertDiskOrders(d: Disk, s: seq<Disk>, revert: bool)
    requires Ordered(s, revert) && forall i | 0 <= i < |s| :: s[i].id != d.id
    ensures Ordered(InsertDisk(d, s, revert), revert)
    ensures multiset(InsertDisk(d, s, revert)) == multiset(s) + multiset{d}
  {
    InsertDiskKeeps(d, s, revert);
    InsertStaysOrdered(d, s, revert);
  }

  lemma {:induction false} InsertDiskKeeps(d: Disk, s: seq<Disk>, revert: bool)
    requires forall i | 0 <= i < |s| :: s[i].id != d.id
    ensures multiset(InsertDisk(d, s, revert)) == multiset(s) + multiset{d}
  {
    if s != [] && !Before(d, s[0], revert) {
      InsertDiskKeeps(d, s[1..], revert);
      assert s == [s[0]] + s[1..];
    }
  }

  lemma {:induction false} InsertStaysOrdered(d: Disk, s: seq<Disk>, revert: bool)
    requires Ordered(s, revert) && forall i | 0 <= i < |s| :: s[i].id != d.id
    ensures Ordered(InsertDisk(d, s, revert), revert)
  {
    if s != [] && Before(s[0], d, revert) {
      InsertStaysOrdered(d, s[1..], revert);
      InsertDiskKeeps(d, s[1..], revert);
      FirstStaysFirst(s[0], s[1..], d, InsertDisk(d, s[1..], revert), revert);
    }
  }

  lemma FirstStaysFirst(x: Disk, rest: seq<Disk>, d: Disk, t: seq<Disk>, revert: bool)
    requires multiset(t) == multiset(rest) + multiset{d} && Before(x, d, revert)
    requires forall j | 0 <= j < |rest| :: Before(x, rest[j], revert)
    ensures forall j | 0 <= j < |t| :: Before(x, t[j], revert)
  {
    forall j | 0 <= j < |t| ensures Before(x, t[j], revert) {
      assert t[j] in multiset(t);
      assert t[j] == d || t[j] in rest;
    }
  }

  function AlignedOf(disks: seq<RSDisk>): (r: seq<nat>)
    ensures |r| == |disks| && forall i | 0 <= i < |r| :: r[i] == disks[i].alignedCapacity
  {
    seq(|disks|, i requires 0 <= i < |disks| => disks[i].alignedCapacity)
  }

  function DisksOf(disks: seq<RSDisk>): (r: seq<Disk>)
    ensures |r| == |disks| && forall i | 0 <= i < |r| :: r[i] == disks[i].disk
  {
    seq(|disks|, i requires 0 <= i < |disks| => disks[i].disk)
  }

  /** The disks carry their clipped capacity, the sum from there on, and the quotient of the two. */
  ghost predicate IsAligned(disks: seq<RSDisk>) {
    forall q | 0 <= q < |disks| ::
      && disks[q].cPosition == Total(AlignedOf(disks)[q..])
      && disks[q].checkC == Rational(disks[q].alignedCapacity, disks[q].cPosition)
  }

  /** The stored tables are those of these disks for k copies. */
  ghost predicate Configured(disks: seq<RSDisk>, k: nat, w: Tables) {
    && IsAligned(disks) && DistinctIds(DisksOf(disks)) && Stepped(w)
    && w.left == Schedule(AlignedOf(disks), k)
    && |w.hashValues| == |disks|
    && (forall q | 0 <= q < |disks| :: HashRow(w.hashValues[q], disks[q], k))
    && (forall q | 0 <= q < |disks| :: disks[q].kError == KError(AlignedOf(disks), k, q))
  }

  ghost predicate Unmarked(disks: seq<RSDisk>) {
    forall q | 0 <= q < |disks| :: disks[q].kError == -1
  }

  class DistRedundantShare {
    const copies: nat
    const revertIDOrder: bool
    var disks: seq<RSDisk>
    var numDisks: nat
    var capacity: nat
    var hashValues: seq<seq<nat>>
    var errorValues: seq<nat>
    /** How many copies the scan had left at each disk. */
    ghost var left: seq<nat>

    /** Holds once disks have been set. */
    ghost predicate Filled()
      reads this
    {
      && numDisks == |disks| && capacity == Total(AlignedOf(disks)) && |errorValues| == copies
      && Configured(disks, copies, TheTables())
    }

    /** Disks have been set, and among them every copy finds one. */
    ghost predicate Valid()
      reads this
    {
      Filled() && Sound(TheTables())
    }

    ghost function TheTables(): Tables
      reads this
    {
      Tables(left, hashValues, KErrorsOf(disks), errorValues)
    }

    constructor (copies: nat, revertIDOrder: bool)
      ensures this.copies == copies && this.revertIDOrder == revertIDOrder && disks == []
    {
      this.copies := copies;
      this.revertIDOrder := revertIDOrder;
      disks, numDisks, capacity := [], 0, 0;
      hashValues, errorValues, left := [], [], [];
    }

    /**
     Sets the disks; a list with fewer disks than copies is ignored. The corrected values for the
     disks that cannot take their full share are an input here: any values do. Every copy will find a
     disk exactly when the scan ends without copies, as it does where the capacities fit.
     */
    method SetDisks(newDisks: seq<Disk>, errorValues: seq<nat>)
      requires copies > 0 && |errorValues| == copies
      requires DistinctIds(newDisks) && Positive(CapacitiesOf(newDisks))
      modifies this
      ensures |newDisks| < copies ==> unchanged(this)
      ensures |newDisks| >= copies ==>
                Filled() && this.errorValues == errorValues && Prepared(newDisks, copies, revertIDOrder, disks)
      ensures |newDisks| >= copies ==> (Valid() <==> Remaining(AlignedOf(disks), copies, |disks|) == 0)
    {
      if |newDisks| < copies { return; }
      var aligned, total, table := FillTables(newDisks, copies, revertIDOrder, errorValues);
      SoundIfNoneLeft(aligned, copies, TablesFor(aligned, copies, table, errorValues));
      disks, numDisks, capacity := aligned, |aligned|, total;
      this.errorValues, hashValues, left := errorValues, table, Schedule(AlignedOf(aligned), copies);
    }

    /**
     The disks of the k copies of one extent. `dice` gives the hash of a disk for this extent.
     The walk stays within the disks, and the copies land on different ones.
     */
    method PlaceExtent(dice: nat -> nat) returns (used: seq<Disk>, ghost positions: seq<nat>)
      requires Valid() && InHashRange(disks, dice)
      ensures |used| == copies == |positions|
      ensures Landed(TheTables(), DiceOf(disks, dice), positions)
      ensures TakenFrom(disks, positions, used)
      ensures InTime(Schedule(AlignedOf(disks), copies), copies, positions)
      ensures forall t, u | 0 <= t < u < copies :: positions[t] < positions[u]
      ensures DistinctIds(used)
    {
      ghost var w := TheTables();
      TablesServe(disks, copies, w, dice);
      used, positions := PlaceCopies(disks, hashValues, errorValues, dice, w);
    }
  }

  ghost predicate InHashRange(disks: seq<RSDisk>, dice: nat -> nat) {
    forall q | 0 <= q < |disks| :: dice(disks[q].disk.id) <= MAX_UINT64
  }

  /** The tables w are those of these disks. */
  ghost predicate TablesOf(w: Tables, disks: seq<RSDisk>, hashValues: seq<seq<nat>>, errorValues: seq<nat>) {
    Sound(w) && w.hashValues == hashValues && w.errorValues == errorValues && w.kErrors == KErrorsOf(disks)
  }

  lemma TablesServe(disks: seq<RSDisk>, k: nat, w: Tables, dice: nat -> nat)
    requires Configured(disks, k, w) && Sound(w) && w.kErrors == KErrorsOf(disks)
    requires InHashRange(disks, dice)
    ensures TablesOf(w, disks, w.hashValues, w.errorValues) && HashesOf(w, DiceOf(disks, dice))
  {
  }

  method PlaceCopies(disks: seq<RSDisk>, hashValues: seq<seq<nat>>, errorValues: seq<nat>, dice: nat -> nat,
                     ghost w: Tables)
    returns (used: seq<Disk>, ghost positions: seq<nat>)
    requires TablesOf(w, disks, hashValues, errorValues) && DistinctIds(DisksOf(disks))
    requires HashesOf(w, DiceOf(disks, dice))
    ensures |used| == |errorValues| == |positions|
    ensures Landed(w, DiceOf(disks, dice), positions)
    ensures TakenFrom(disks, positions, used)
    ensures InTime(w.left, |errorValues|, positions)
    ensures forall t, u | 0 <= t < u < |used| :: positions[t] < positions[u]
    ensures DistinctIds(used)
  {
    ghost var d := DiceOf(disks, dice);
    used, positions := [], [];
    var i: nat := 0;
    var toPlace := |errorValues|;
    while toPlace > 0
      invariant 0 <= toPlace <= |errorValues| && |positions| == |errorValues| - toPlace
      invariant i == NextStart(positions) && i <= |disks| && toPlace <= w.left[i]
      invariant Landed(w, d, positions)
      invariant TakenFrom(disks, positions, used)
    {
      i, used, positions := PlaceNext(disks, hashValues, errorValues, i, toPlace, dice, d, w, used, positions);
      toPlace := toPlace - 1;
    }
    LandedInTime(w, d, positions);
    AscendingDistinct(disks, used, positions);
  }

  /** Places the copy with l left on the disk that accepts it, and goes on behind that disk. */
  method PlaceNext(disks: seq<RSDisk>, hashValues: seq<seq<nat>>, errorValues: seq<nat>, start: nat, l: nat,
                   dice: nat -> nat, ghost d: seq<nat>, ghost w: Tables, used: seq<Disk>, ghost positions: seq<nat>)
    returns (next: nat, used': seq<Disk>, ghost positions': seq<nat>)
    requires TablesOf(w, disks, hashValues, errorValues) && HashesOf(w, d) && d == DiceOf(disks, dice)
    requires 0 < l <= |errorValues| && |positions| == |errorValues| - l
    requires start == NextStart(positions) && start <= |disks| && l <= w.left[start]
    requires Landed(w, d, positions) && TakenFrom(disks, positions, used)
    ensures |positions'| == |positions| + 1
    ensures next == NextStart(positions') && next <= |disks| && l - 1 <= w.left[next]
    ensures Landed(w, d, positions') && TakenFrom(disks, positions', used')
  {
    var i := WalkFrom(disks, hashValues, errorValues, start, l, dice, d, w);
    LandedNext(w, d, positions, l, start, i);
    TakeOne(disks, positions, used, i);
    next, used', positions' := i + 1, used + [disks[i].disk], positions + [i];
  }

  lemma {:induction false} LandedNext(w: Tables, d: seq<nat>, positions: seq<nat>, l: nat, start: nat, p: nat)
    requires Landed(w, d, positions) && 0 < l == |w.errorValues| - |positions| && start == NextStart(positions)
    requires LandsAt(w, d, l, start, p)
    ensures Landed(w, d, positions + [p]) && NextStart(positions + [p]) == p + 1
  {
    assert (positions + [p])[..|positions|] == positions;
  }

  /** used[t] is the disk at positions[t]. */
  ghost predicate TakenFrom(disks: seq<RSDisk>, positions: seq<nat>, used: seq<Disk>) {
    |used| == |positions| && forall t | 0 <= t < |used| :: positions[t] < |disks| && used[t] == disks[positions[t]].disk
  }

  lemma TakeOne(disks: seq<RSDisk>, positions: seq<nat>, used: seq<Disk>, p: nat)
    requires TakenFrom(disks, positions, used) && p < |disks|
    ensures TakenFrom(disks, positions + [p], used + [disks[p].disk])
  {
  }

  /** Walks on from disk `start` until one accepts the copy with l left. */
  method WalkFrom(disks: seq<RSDisk>, hashValues: seq<seq<nat>>, errorValues: seq<nat>,
                  start: nat, l: nat, dice: nat -> nat, ghost d: seq<nat>, ghost w: Tables) returns (i: nat)
    requires TablesOf(w, disks, hashValues, errorValues) && HashesOf(w, d)
    requires |d| == |disks| && forall j | 0 <= j < |d| :: d[j] == dice(disks[j].disk.id)
    requires 0 < l && start <= |disks| && l <= w.left[start]
    ensures i < |disks| && LandsAt(w, d, l, start, i)
    ensures l - 1 <= w.left[i + 1]
  {
    i := start;
    WalkStarts(w, d, l, i);
    var value := if disks[i].kError == l then errorValues[l-1] else hashValues[i][l-1];
    while dice(disks[i].disk.id) > value
      invariant Walking(w, d, l, start, i) && value == Threshold(w, i, l, start)
      decreases |disks| - i
    {
      WalkOn(w, d, l, start, i);
      i := i + 1;
      value := hashValues[i][l-1];
    }
    WalkEnds(w, d, l, start, i);
  }

  /** The copy with l left has come as far as disk i. */
  ghost predicate Walking(w: Tables, d: seq<nat>, l: nat, start: nat, i: nat) {
    && i < |w.hashValues| && i < |w.kErrors| && i < |w.left| && start <= i
    && 0 < l <= w.left[i] && l <= |w.hashValues[i]| && l <= |w.errorValues|
    && Passed(w, d, l, start, i)
  }

  lemma WalkStarts(w: Tables, d: seq<nat>, l: nat, start: nat)
    requires Sound(w) && start <= |w.hashValues| && 0 < l <= w.left[start]
    ensures Walking(w, d, l, start, start)
  {
    if start < |w.hashValues| { assert DropsAt(w, start); }
  }

  lemma WalkOn(w: Tables, d: seq<nat>, l: nat, start: nat, i: nat)
    requires Sound(w) && HashesOf(w, d) && Walking(w, d, l, start, i) && d[i] > Threshold(w, i, l, start)
    ensures Walking(w, d, l, start, i + 1) && w.hashValues[i+1][l-1] == Threshold(w, i + 1, l, start)
  {
    MissLeavesRoom(w, i, l, start, d[i]);
    assert DropsAt(w, i + 1);
  }

  lemma WalkEnds(w: Tables, d: seq<nat>, l: nat, start: nat, i: nat)
    requires Sound(w) && HashesOf(w, d) && Walking(w, d, l, start, i) && d[i] <= Threshold(w, i, l, start)
    ensures LandsAt(w, d, l, start, i) && l - 1 <= w.left[i+1]
  {
    assert DropsAt(w, i);
  }

  lemma AscendingDistinct(disks: seq<RSDisk>, used: seq<Disk>, positions: seq<nat>)
    requires |used| == |positions| && DistinctIds(DisksOf(disks))
    requires TakenFrom(disks, positions, used)
    requires forall t, u | 0 <= t < u < |used| :: positions[t] < positions[u]
    ensures DistinctIds(used)
  {
    forall t, u | 0 <= t < u < |used| ensures used[t].id != used[u].id {
      assert DisksOf(disks)[positions[t]].id != DisksOf(disks)[positions[u]].id;
    }
  }

  function KErrorsOf(disks: seq<RSDisk>): (r: seq<int>)
    ensures |r| == |disks| && forall i | 0 <= i < |r| :: r[i] == disks[i].kError
  {
    seq(|disks|, i requires 0 <= i < |disks| => disks[i].kError)
  }

  ghost function TablesFor(disks: seq<RSDisk>, k: nat, hashValues: seq<seq<nat>>, errorValues: seq<nat>): Tables {
    Tables(Schedule(AlignedOf(disks), k), hashValues, KErrorsOf(disks), errorValues)
  }

  /** The disks in order, clipped and marked, and their thresholds. */
  method FillTables(newDisks: seq<Disk>, copies: nat, revert: bool, ghost errorValues: seq<nat>)
    returns (disks: seq<RSDisk>, total: nat, table: seq<seq<nat>>)
    requires 0 < copies <= |newDisks| && DistinctIds(newDisks) && Positive(CapacitiesOf(newDisks))
             && |errorValues| == copies
    ensures Prepared(newDisks, copies, revert, disks) && total == Total(AlignedOf(disks))
    ensures Configured(disks, copies, TablesFor(disks, copies, table, errorValues))
  {
    var aligned;
    aligned, total := PrepareDisks(newDisks, copies, revert);
    PreparedBounds(newDisks, copies, revert, aligned);
    disks := ScanErrors(aligned, copies);
    SamePrepared(newDisks, copies, revert, aligned, disks);
    table := InitValueCaches(disks, copies);
    TablesSound(disks, copies, table, errorValues);
  }

  lemma {:induction false} SoundIfNoneLeft(disks: seq<RSDisk>, k: nat, w: Tables)
    requires Configured(disks, k, w)
    ensures Sound(w) <==> Remaining(AlignedOf(disks), k, |disks|) == 0
  {
  }

  /** The stored tables are as the walk needs them, whatever the corrected values are. */
  lemma TablesSound(disks: seq<RSDisk>, k: nat, hashValues: seq<seq<nat>>, errorValues: seq<nat>)
    requires |disks| == |hashValues| && |errorValues| == k && IsAligned(disks)
    requires forall q | 0 <= q < |disks| :: HashRow(hashValues[q], disks[q], k)
    requires forall q | 0 <= q < |disks| :: disks[q].kError == KError(AlignedOf(disks), k, q)
    requires DistinctIds(DisksOf(disks))
    ensures Configured(disks, k, TablesFor(disks, k, hashValues, errorValues))
  {
    var c := AlignedOf(disks);
    var w := TablesFor(disks, k, hashValues, errorValues);
    forall q | 0 <= q < |c| ensures DropsAt(w, q) {
      DropSaturates(c, k, q, disks[q], hashValues[q]);
    }
    forall q | 0 <= q < |disks| && w.kErrors[q] != -1 ensures w.kErrors[q] + 1 == w.left[q] {
      KErrorIsOneLess(c, k, q);
    }
  }

  lemma {:induction false} KErrorIsOneLess(c: seq<nat>, k: nat, q: nat)
    requires q < |c| && KError(c, k, q) != -1
    ensures KError(c, k, q) + 1 == Remaining(c, k, q)
  {
  }

  lemma DropSaturates(c: seq<nat>, k: nat, q: nat, d: RSDisk, row: seq<nat>)
    requires q < |c| && HashRow(row, d, k) && d.alignedCapacity == c[q] && d.cPosition == Total(c[q..])
    ensures Remaining(c, k, q) - 1 <= Remaining(c, k, q + 1) <= Remaining(c, k, q) <= k
    ensures Remaining(c, k, q) > 0 ==>
              && row[Remaining(c, k, q) - 1] <= MAX_UINT64
              && (Remaining(c, k, q + 1) < Remaining(c, k, q) <==> row[Remaining(c, k, q) - 1] == MAX_UINT64)
  {
    RemainingSteps(c, k, 0, q);
    var l := Remaining(c, k, q);
    if l > 0 { SaturatesOnDrop(row[l-1], l, c[q], Total(c[q..])); }
  }

  lemma SaturatesOnDrop(h: nat, l: nat, a: nat, s: nat)
    requires s > 0 && l > 0 && IsThreshold(h, a, s, l)
    ensures h <= MAX_UINT64 && (ScanNext(l, a, s) < l <==> h == MAX_UINT64)
  {
    FullShareSaturates(h, a, s, l);
  }

  function DiceOf(disks: seq<RSDisk>, dice: nat -> nat): (r: seq<nat>)
    ensures |r| == |disks| && forall i | 0 <= i < |r| :: r[i] == dice(disks[i].disk.id)
  {
    if disks == [] then [] else [dice(disks[0].disk.id)] + DiceOf(disks[1..], dice)
  }

  ghost predicate HashRow(row: seq<nat>, d: RSDisk, copies: nat) {
    && |row| == copies && d.cPosition > 0
    && forall copy | 0 <= copy < copies :: IsThreshold(row[copy], d.alignedCapacity, d.cPosition, copy + 1)
  }

  method OrderDisks(newDisks: seq<Disk>, revert: bool) returns (ordered: seq<Disk>)
    requires DistinctIds(newDisks)
    ensures ordered == OrderedDisks(newDisks, revert) && multiset(ordered) == multiset(newDisks)
    ensures Ordered(ordered, revert) && DistinctIds(ordered)
  {
    ordered := [];
    for i := 0 to |newDisks|
      invariant ordered == OrderedDisks(newDisks[..i], revert)
    {
      assert newDisks[..i+1][..i] == newDisks[..i];
      ordered := InsertDisk(newDisks[i], ordered, revert);
    }
    assert newDisks[..|newDisks|] == newDisks;
    OrderedDisksSound(newDisks, revert);
  }

  /** The ordered set holds all disks, largest first. */
  lemma {:induction false} OrderedDisksSound(newDisks: seq<Disk>, revert: bool)
    requires DistinctIds(newDisks)
    ensures var ordered := OrderedDisks(newDisks, revert);
            && multiset(ordered) == multiset(newDisks) && Ordered(ordered, revert) && DistinctIds(ordered)
            && forall i, j | 0 <= i < j < |ordered| ::
                 && ordered[i].capacity >= ordered[j].capacity
                 && (ordered[i].capacity == ordered[j].capacity
                     ==> if revert then ordered[i].id > ordered[j].id else ordered[i].id < ordered[j].id)
    decreases |newDisks|
  {
    if newDisks != [] {
      var before, d := newDisks[..|newDisks|-1], newDisks[|newDisks|-1];
      OrderedDisksSound(before, revert);
      InsertedSound(before, d, OrderedDisks(before, revert), revert);
      MultisetOfLast(newDisks);
    }
    SameDisks(newDisks, OrderedDisks(newDisks, revert));
  }

  lemma InsertedSound(before: seq<Disk>, d: Disk, ordered: seq<Disk>, revert: bool)
    requires multiset(ordered) == multiset(before) && Ordered(ordered, revert)
    requires forall i | 0 <= i < |before| :: before[i].id != d.id
    ensures Ordered(InsertDisk(d, ordered, revert), revert)
    ensures multiset(InsertDisk(d, ordered, revert)) == multiset(before) + multiset{d}
  {
    forall j | 0 <= j < |ordered| ensures ordered[j].id != d.id {
      assert ordered[j] in multiset(before);
    }
    InsertDiskOrders(d, ordered, revert);
  }

  lemma MultisetOfLast(s: seq<Disk>)
    requires s != []
    ensures multiset(s) == multiset(s[..|s|-1]) + multiset{s[|s|-1]}
  {
    assert s == s[..|s|-1] + [s[|s|-1]];
  }

  lemma SameDisks(a: seq<Disk>, b: seq<Disk>)
    requires multiset(a) == multiset(b) && DistinctIds(a)
    ensures DistinctIds(b)
  {
    forall i | 0 <= i < |b| ensures b[i] in a {
      assert b[i] in multiset(b);
    }
    forall i, j | 0 <= i < j < |b| ensures b[i].id != b[j].id {
      if b[i].id == b[j].id {
        var k :| 0 <= k < |a| && a[k] == b[i];
        var m :| 0 <= m < |a| && a[m] == b[j];
        assert k == m;
        TwiceInMultiset(b, i, j);
        OnceInMultiset(a, k);
      }
    }
  }

  lemma TwiceInMultiset(s: seq<Disk>, i: nat, j: nat)
    requires i < j < |s| && s[i] == s[j]
    ensures multiset(s)[s[i]] >= 2
  {
    assert s == s[..i] + [s[i]] + s[i+1..j] + [s[j]] + s[j+1..];
  }

  lemma OnceInMultiset(s: seq<Disk>, i: nat)
    requires i < |s| && DistinctIds(s)
    ensures multiset(s)[s[i]] == 1
  {
    assert s == s[..i] + [s[i]] + s[i+1..];
    assert s[i] !in s[..i] && s[i] !in s[i+1..];
  }

  /**
   Three copies on three disks of capacities 2^33 - 1, 2^32 and 1: with the largest hashes the walk
   runs past the last disk.
   */
  lemma WalkRunsOff(disks: seq<RSDisk>, w: Tables)
    requires Configured(disks, 3, w) && |w.errorValues| == 3
    requires AlignedOf(disks) == Aligned([0x1_FFFF_FFFF, TWO_TO_THE_32, 1], 2)
    ensures !PlacesAll(w, TopHashes(3))
  {
    ScanLosesCopy();
    forall positions | Landed(w, TopHashes(3), positions) ensures |positions| < 3 {
      FollowsScan(w, positions);
      LeftDescends(w, NextStart(positions), 3);
    }
  }

  /** The given disks in order of capacity, each with its capacity clipped for k copies. */
  ghost predicate Prepared(newDisks: seq<Disk>, k: nat, revert: bool, disks: seq<RSDisk>) {
    && multiset(DisksOf(disks)) == multiset(newDisks) && Ordered(DisksOf(disks), revert)
    && DisksOf(disks) == OrderedDisks(newDisks, revert)
    && AlignedOf(disks) == Aligned(CapacitiesOf(DisksOf(disks)), k - 1)
  }

  /** With the disks in order and clipped, the scan gives up all k copies. */
  ghost predicate ScanEnds(newDisks: seq<Disk>, k: nat, revert: bool) {
    forall disks | Prepared(newDisks, k, revert, disks) :: Remaining(AlignedOf(disks), k, |disks|) == 0
  }

  lemma PreparedOnce(newDisks: seq<Disk>, k: nat, revert: bool, a: seq<RSDisk>, b: seq<RSDisk>)
    requires Prepared(newDisks, k, revert, a) && Prepared(newDisks, k, revert, b)
    ensures AlignedOf(a) == AlignedOf(b) && |a| == |b|
  {
    assert |a| == |DisksOf(a)| && |b| == |DisksOf(b)|;
  }

  lemma SamePrepared(newDisks: seq<Disk>, k: nat, revert: bool, a: seq<RSDisk>, b: seq<RSDisk>)
    requires Prepared(newDisks, k, revert, a) && DisksOf(a) == DisksOf(b) && AlignedOf(a) == AlignedOf(b)
    ensures Prepared(newDisks, k, revert, b)
  {
  }

  /** Every prepared disk keeps something, and none becomes larger. */
  lemma PreparedBounds(newDisks: seq<Disk>, k: nat, revert: bool, disks: seq<RSDisk>)
    requires Prepared(newDisks, k, revert, disks) && 0 < k <= |newDisks| && Positive(CapacitiesOf(newDisks))
    ensures |disks| == |newDisks| && Positive(AlignedOf(disks))
    ensures Positive(CapacitiesOf(DisksOf(disks))) && Descending(CapacitiesOf(DisksOf(disks)))
  {
    var ordered := DisksOf(disks);
    assert |multiset(ordered)| == |ordered| && |multiset(newDisks)| == |newDisks|;
    PositiveStays(newDisks, ordered);
    OrderedDescends(ordered, revert);
    AlignedBounds(CapacitiesOf(ordered), k - 1);
  }

  lemma {:induction false} ScanEndsExactly(newDisks: seq<Disk>, k: nat, revert: bool, disks: seq<RSDisk>)
    requires Prepared(newDisks, k, revert, disks)
    ensures ScanEnds(newDisks, k, revert) <==> Remaining(AlignedOf(disks), k, |disks|) == 0
  {
    if Remaining(AlignedOf(disks), k, |disks|) == 0 {
      forall other | Prepared(newDisks, k, revert, other) ensures Remaining(AlignedOf(other), k, |other|) == 0 {
        PreparedOnce(newDisks, k, revert, disks, other);
      }
    }
  }

  /** Prepared disks have capacities that fit k copies exactly when clipping them never slipped; the scan then ends. */
  lemma PreparedFits(newDisks: seq<Disk>, k: nat, revert: bool, disks: seq<RSDisk>)
    requires Prepared(newDisks, k, revert, disks) && 0 < k <= |newDisks| && Positive(CapacitiesOf(newDisks))
    ensures Good(AlignedOf(disks), k) <==> NeverSlips(CapacitiesOf(DisksOf(disks)), k - 1)
    ensures Good(AlignedOf(disks), k) ==> ScanEnds(newDisks, k, revert)
  {
    PreparedBounds(newDisks, k, revert, disks);
    AlignedGood(CapacitiesOf(DisksOf(disks)), k);
    if Good(AlignedOf(disks), k) {
      RemainingBound(AlignedOf(disks), k, |disks|);
      ScanEndsExactly(newDisks, k, revert, disks);
    }
  }

  lemma OrderedDescends(s: seq<Disk>, revert: bool)
    requires Ordered(s, revert)
    ensures Descending(CapacitiesOf(s))
  {
  }

  lemma PositiveStays(a: seq<Disk>, b: seq<Disk>)
    requires multiset(a) == multiset(b) && Positive(CapacitiesOf(a))
    ensures Positive(CapacitiesOf(b))
  {
    forall i | 0 <= i < |b| ensures CapacitiesOf(b)[i] >= 1 {
      assert b[i] in multiset(b);
      var k :| 0 <= k < |a| && a[k] == b[i];
      assert CapacitiesOf(a)[k] >= 1;
    }
  }

  method PrepareDisks(newDisks: seq<Disk>, copies: nat, revert: bool) returns (aligned: seq<RSDisk>, total: nat)
    requires 0 < copies <= |newDisks| && DistinctIds(newDisks)
    ensures Prepared(newDisks, copies, revert, aligned) && DistinctIds(DisksOf(aligned))
    ensures IsAligned(aligned) && total == Total(AlignedOf(aligned))
    ensures Unmarked(aligned)
  {
    var ordered := OrderDisks(newDisks, revert);
    aligned, total := AlignDisks(ordered, copies);
  }

  /** Clips the capacities from the last disk to the first, and stores the sums and quotients. */
  method AlignDisks(disks: seq<Disk>, copies: nat) returns (aligned: seq<RSDisk>, total: nat)
    ensures DisksOf(aligned) == disks && IsAligned(aligned) && total == Total(AlignedOf(aligned))
    ensures AlignedOf(aligned) == Aligned(CapacitiesOf(disks), copies - 1)
    ensures Unmarked(aligned)
  {
    aligned, total := [], 0;
    var i := copies - |disks|;
    var q := |disks|;
    while q > 0
      invariant 0 <= q <= |disks| && i == copies - q
      invariant DisksOf(aligned) == disks[q..] && IsAligned(aligned) && total == Total(AlignedOf(aligned))
      invariant AlignedOf(aligned) == Aligned(CapacitiesOf(disks[q..]), i - 1)
      invariant Unmarked(aligned)
    {
      q := q - 1;
      aligned, total := AlignNext(disks, q, i, aligned, total);
      i := i + 1;
    }
    assert disks[0..] == disks;
  }

  method AlignNext(disks: seq<Disk>, q: nat, i: int, aligned: seq<RSDisk>, total: nat)
    returns (aligned': seq<RSDisk>, total': nat)
    requires q < |disks|
    requires DisksOf(aligned) == disks[q+1..] && IsAligned(aligned) && total == Total(AlignedOf(aligned))
    requires AlignedOf(aligned) == Aligned(CapacitiesOf(disks[q+1..]), i - 1)
    requires Unmarked(aligned)
    ensures DisksOf(aligned') == disks[q..] && IsAligned(aligned') && total' == Total(AlignedOf(aligned'))
    ensures AlignedOf(aligned') == Aligned(CapacitiesOf(disks[q..]), i)
    ensures Unmarked(aligned')
  {
    var a := AlignOne(disks[q].capacity, total, i);
    total' := total + a;
    var rs := RSDisk(disks[q], a, total', Rational(a, total'), -1);
    AlignedFront(rs, aligned);
    AlignedCons(disks, q, i);
    aligned' := [rs] + aligned;
  }

  lemma {:induction false} AlignedCons(disks: seq<Disk>, q: nat, i: int)
    requires q < |disks|
    ensures var rest := Aligned(CapacitiesOf(disks[q+1..]), i - 1);
            Aligned(CapacitiesOf(disks[q..]), i) == [AlignedStep(disks[q].capacity, Total(rest), i)] + rest
    ensures disks[q..] == [disks[q]] + disks[q+1..]
  {
    assert CapacitiesOf(disks[q..])[1..] == CapacitiesOf(disks[q+1..]);
  }

  method AlignOne(capacity: nat, total: nat, i: int) returns (a: nat)
    ensures a == AlignedStep(capacity, total, i)
  {
    if i <= 0 || capacity % TWO_TO_THE_32 < total / i {
      a := capacity;
    } else {
      a := total / i;
    }
  }

  lemma AlignedFront(d: RSDisk, rest: seq<RSDisk>)
    requires IsAligned(rest) && d.cPosition == d.alignedCapacity + Total(AlignedOf(rest))
    requires d.checkC == Rational(d.alignedCapacity, d.cPosition)
    ensures IsAligned([d] + rest) && Total(AlignedOf([d] + rest)) == d.cPosition
    ensures AlignedOf([d] + rest) == [d.alignedCapacity] + AlignedOf(rest)
    ensures DisksOf([d] + rest) == [d.disk] + DisksOf(rest)
    ensures Unmarked(rest) && d.kError == -1 ==> Unmarked([d] + rest)
  {
    var all := [d] + rest;
    FrontParts(d, rest);
    forall q | 0 <= q < |all|
      ensures all[q].cPosition == Total(AlignedOf(all)[q..])
      ensures all[q].checkC == Rational(all[q].alignedCapacity, all[q].cPosition)
    {
      if q > 0 {
        assert all[q] == rest[q-1];
        assert AlignedOf(all)[q..] == AlignedOf(rest)[q-1..];
      } else {
        assert AlignedOf(all)[0..] == AlignedOf(all);
      }
    }
  }

  lemma FrontParts(d: RSDisk, rest: seq<RSDisk>)
    ensures AlignedOf([d] + rest) == [d.alignedCapacity] + AlignedOf(rest)
    ensures DisksOf([d] + rest) == [d.disk] + DisksOf(rest)
    ensures Total(AlignedOf([d] + rest)) == d.alignedCapacity + Total(AlignedOf(rest))
  {
    assert AlignedOf([d] + rest) == [d.alignedCapacity] + AlignedOf(rest);
    assert AlignedOf([d] + rest)[1..] == AlignedOf(rest);
  }

  /** The scan that drops one copy per full disk and marks the disks that would be overfilled. */
  method ScanErrors(aligned: seq<RSDisk>, copies: nat) returns (disks: seq<RSDisk>)
    requires IsAligned(aligned) && Positive(AlignedOf(aligned))
    requires Unmarked(aligned)
    ensures |disks| == |aligned| && AlignedOf(disks) == AlignedOf(aligned)
    ensures DisksOf(disks) == DisksOf(aligned) && IsAligned(disks)
    ensures forall q | 0 <= q < |disks| :: disks[q].kError == KError(AlignedOf(disks), copies, q)
  {
    disks := aligned;
    var l: nat := copies;
    for i := 0 to |aligned|
      invariant l == Remaining(AlignedOf(aligned), copies, i) && Marked(disks, aligned, copies, i)
    {
      disks, l := ScanDisk(disks, i, l, aligned, copies);
    }
    AllMarked(disks, aligned, copies);
  }

  /** The first n disks are marked as the scan says, and nothing else is changed. */
  ghost predicate Marked(disks: seq<RSDisk>, aligned: seq<RSDisk>, copies: nat, n: nat) {
    && |disks| == |aligned|
    && forall q | 0 <= q < |disks| ::
         disks[q] == aligned[q].(kError := if q < n then KError(AlignedOf(aligned), copies, q) else -1)
  }

  lemma AllMarked(disks: seq<RSDisk>, aligned: seq<RSDisk>, copies: nat)
    requires Marked(disks, aligned, copies, |aligned|) && IsAligned(aligned)
    ensures |disks| == |aligned| && AlignedOf(disks) == AlignedOf(aligned)
    ensures DisksOf(disks) == DisksOf(aligned) && IsAligned(disks)
    ensures forall q | 0 <= q < |disks| :: disks[q].kError == KError(AlignedOf(disks), copies, q)
  {
    assert AlignedOf(disks) == AlignedOf(aligned) && DisksOf(disks) == DisksOf(aligned);
  }

  method ScanDisk(disks: seq<RSDisk>, i: nat, l: nat, ghost aligned: seq<RSDisk>, ghost copies: nat)
    returns (disks': seq<RSDisk>, l': nat)
    requires IsAligned(aligned) && Positive(AlignedOf(aligned)) && i < |aligned|
    requires Marked(disks, aligned, copies, i) && l == Remaining(AlignedOf(aligned), copies, i)
    ensures Marked(disks', aligned, copies, i + 1) && l' == Remaining(AlignedOf(aligned), copies, i + 1)
  {
    TotalPositive(AlignedOf(aligned)[i..]);
    assert aligned[i].cPosition == Total(AlignedOf(aligned)[i..]);
    var error;
    error, l' := ScanOne(disks[i].checkC, l);
    disks' := disks[i := disks[i].(kError := error)];
  }

  /** Compares l times the quotient with one, by value. */
  method ScanOne(checkC: Rational, l: nat) returns (error: int, l': nat)
    requires 0 <= checkC.num && 0 < checkC.den
    ensures error == ErrorNext(l, checkC.num, checkC.den) && l' == ScanNext(l, checkC.num, checkC.den)
  {
    var result := Multiplied(checkC, Whole(l));
    ComparedWithOne(checkC, l);
    error, l' := -1, l;
    if result.num == result.den {
      l' := l - 1;
    } else if result.num > result.den {
      error := l - 1;
      l' := l - 1;
    }
  }

  method InitValueCaches(disks: seq<RSDisk>, copies: nat) returns (hashValues: seq<seq<nat>>)
    requires IsAligned(disks) && Positive(AlignedOf(disks))
    ensures |hashValues| == |disks| && forall q | 0 <= q < |disks| :: HashRow(hashValues[q], disks[q], copies)
  {
    hashValues := [];
    for q := 0 to |disks|
      invariant |hashValues| == q && forall p | 0 <= p < q :: HashRow(hashValues[p], disks[p], copies)
    {
      TotalPositive(AlignedOf(disks)[q..]);
      var row := HashesOfDisk(disks[q], copies);
      hashValues := hashValues + [row];
    }
  }

  method HashesOfDisk(disk: RSDisk, copies: nat) returns (row: seq<nat>)
    requires disk.checkC == Rational(disk.alignedCapacity, disk.cPosition) && disk.cPosition > 0
    ensures HashRow(row, disk, copies)
  {
    var base := Rational(disk.checkC.num * MAX_UINT64, disk.checkC.den);
    row := [];
    for copy := 0 to copies
      invariant |row| == copy
      invariant forall k | 0 <= k < copy :: IsThreshold(row[k], disk.alignedCapacity, disk.cPosition, k + 1)
    {
      DividedIsThreshold(disk.alignedCapacity, disk.cPosition, copy + 1);
      var value := base.num * (copy + 1) / base.den;
      row := row + [if value >= MAX_UINT64 then MAX_UINT64 else value];
    }
  }
}
