/**
 The order in which moved blocks go to the new partitions, read off the owners before and after one
 redistribution, and why that order, the sizes and the set of moved blocks leave only one outcome.
 */
module Handover {
  import opened Sequences
  import opened Sums
  import opened Blocks
  import opened FreeSpace
  import opened Quotas
  import opened Collect
  import opened Reuse
  import opened Redistribution

  ghost predicate MovedAt(before: seq<nat>, after: seq<nat>, x: nat) {
    x < |before| && x < |after| && after[x] != before[x]
  }

  /** Where the unbroken run of moved blocks around x begins. */
  ghost function RunStart(before: seq<nat>, after: seq<nat>, x: nat): nat {
    if x > 0 && MovedAt(before, after, x - 1) then RunStart(before, after, x - 1) else x
  }

  /** The first block from x on that has not moved. */
  ghost function RunEnd(before: seq<nat>, after: seq<nat>, x: nat): (e: nat)
    ensures e >= x
    decreases if x < |before| then |before| - x else 0
  {
    if MovedAt(before, after, x) then RunEnd(before, after, x + 1) else x
  }

  ghost function RunSize(before: seq<nat>, after: seq<nat>, x: nat): int {
    RunEnd(before, after, x) - RunStart(before, after, x)
  }

  /** Which of two moved blocks is handed out first: by address, or by the size of its run before that. */
  ghost predicate BlockFirst(sorted: bool, before: seq<nat>, after: seq<nat>, x: nat, y: nat) {
    var m, n := RunSize(before, after, x), RunSize(before, after, y);
    if sorted then m > n || (m == n && x < y) else x < y
  }

  /** Which of two requests is served first: by place in the list, or by size before that. */
  predicate RequestFirst(sorted: bool, requests: seq<Request>, i: nat, j: nat)
    requires i < |requests| && j < |requests|
  {
    if sorted then requests[i].size > requests[j].size || (requests[i].size == requests[j].size && i < j) else i < j
  }

  ghost predicate IdFirst(sorted: bool, requests: seq<Request>, p: nat, q: nat) {
    exists i: nat, j: nat | i < |requests| && j < |requests| && requests[i].id == p && requests[j].id == q ::
      RequestFirst(sorted, requests, i, j)
  }

  /** Blocks handed out first go to partitions served first. */
  ghost predicate InTurn(sorted: bool, before: seq<nat>, after: seq<nat>, requests: seq<Request>) {
    && |after| == |before|
    && forall x: nat, y: nat |
         MovedAt(before, after, x) && MovedAt(before, after, y) && BlockFirst(sorted, before, after, x, y) ::
         after[x] == after[y] || IdFirst(sorted, requests, after[x], after[y])
  }

  // ---- the runs of moved blocks are the collected intervals ----

  lemma {:induction false} RunStartIs(before: seq<nat>, after: seq<nat>, free: seq<Interval>, i: nat, x: nat)
    requires Collected(before, after, free) && i < |free| && free[i].lo <= x <= free[i].hi
    ensures RunStart(before, after, x) == free[i].lo
    decreases x
  {
    if free[i].lo < x {
      assert InFree(free, x - 1);
      RunStartIs(before, after, free, i, x - 1);
    } else {
      assert x > 0 ==> !InFree(free, x - 1);
    }
  }

  lemma {:induction false} RunEndIs(before: seq<nat>, after: seq<nat>, free: seq<Interval>, i: nat, x: nat)
    requires Collected(before, after, free) && i < |free| && free[i].lo <= x <= free[i].hi
    ensures RunEnd(before, after, x) == free[i].hi
    decreases free[i].hi - x
  {
    if x < free[i].hi {
      assert InFree(free, x);
      RunEndIs(before, after, free, i, x + 1);
    } else {
      assert !InFree(free, x);
    }
  }

  /** The moved blocks are those of the collected intervals. */
  ghost predicate Collected(before: seq<nat>, after: seq<nat>, free: seq<Interval>) {
    && |after| == |before| && Separated(free, |before|)
    && forall x: nat :: MovedAt(before, after, x) <==> InFree(free, x)
  }

  lemma RunOfInterval(before: seq<nat>, after: seq<nat>, free: seq<Interval>, a: Interval, x: nat)
    requires Collected(before, after, free) && a in free && a.lo <= x < a.hi
    ensures RunSize(before, after, x) == IntervalSize(a)
  {
    var i :| 0 <= i < |free| && free[i] == a;
    RunStartIs(before, after, free, i, x);
    RunEndIs(before, after, free, i, x);
  }

  // ---- the order of the two lists ----

  /** The order in which both strategies leave the intervals. */
  ghost predicate IntervalsInOrder(sorted: bool, order: seq<Interval>) {
    if sorted then InOrder(order, IntervalSize, LowEnd) else forall i, j | 0 <= i < j < |order| ::
        order[i].lo < order[j].lo
  }

  function LowEnd(i: Interval): nat { i.lo }

  /** The place of the first request of a partition. */
  function PlaceOf(requests: seq<Request>, id: nat): nat {
    if requests == [] || requests[0].id == id then 0 else 1 + PlaceOf(requests[1..], id)
  }

  function PlaceIn(requests: seq<Request>): Request -> nat { (r: Request) => PlaceOf(requests, r.id) }

  lemma {:induction false} PlaceAt(requests: seq<Request>, i: nat)
    requires i < |requests| && forall j, k | 0 <= j < k < |requests| :: requests[j].id != requests[k].id
    ensures PlaceOf(requests, requests[i].id) == i
  {
    if i > 0 { PlaceAt(requests[1..], i - 1); }
  }

  /** The order in which both strategies serve the requests. */
  ghost predicate ServedInOrder(sorted: bool, requests: seq<Request>, handed: seq<Request>) {
    && multiset(handed) == multiset(requests)
    && if sorted then InOrder(handed, RequestSize, PlaceIn(requests)) else handed == requests
  }

  lemma SortedIntervals(free: seq<Interval>, bound: nat)
    requires Separated(free, bound)
    ensures IntervalsInOrder(true, SortDescending(free, IntervalSize))
  {
    SortDescendingStable(free, IntervalSize, LowEnd);
  }

  lemma SortedRequests(m: map<nat, nat>, requests: seq<Request>)
    requires Fresh(m, requests)
    ensures ServedInOrder(true, requests, SortDescending(requests, RequestSize))
  {
    var place := PlaceIn(requests);
    SortDescendingSorts(requests, RequestSize);
    forall i, j | 0 <= i < j < |requests| ensures place(requests[i]) < place(requests[j]) {
      PlaceAt(requests, i);
      PlaceAt(requests, j);
    }
    SortDescendingStable(requests, RequestSize, place);
  }

  // ---- handing out in order ----

  /** Where entry k of a flattened list comes from: part a, place i in it. */
  lemma {:induction false} FlattenAt<T>(s: seq<T>, f: T -> seq<nat>, k: nat) returns (a: nat, i: nat)
    requires k < |Flatten(s, f)|
    ensures a < |s| && i < |f(s[a])| && f(s[a])[i] == Flatten(s, f)[k]
    ensures |Flatten(s[..a], f)| + i == k
  {
    if k < |f(s[0])| {
      a, i := 0, k;
    } else {
      a, i := FlattenAt(s[1..], f, k - |f(s[0])|);
      a := a + 1;
      assert s[..a] == [s[0]] + s[1..][..a-1];
      FlattenAppend([s[0]], s[1..][..a-1], f);
      assert Flatten([s[0]], f) == f(s[0]) + Flatten([s[0]][1..], f);
    }
  }

  /** Entries of a flattened list come from its parts in order. */
  lemma {:induction false} FlattenInOrder<T>(s: seq<T>, f: T -> seq<nat>, k: nat, m: nat)
    returns (a: nat, i: nat, b: nat, j: nat)
    requires k <= m < |Flatten(s, f)|
    ensures a < |s| && i < |f(s[a])| && f(s[a])[i] == Flatten(s, f)[k]
    ensures b < |s| && j < |f(s[b])| && f(s[b])[j] == Flatten(s, f)[m]
    ensures a < b || (a == b && i <= j)
  {
    a, i := FlattenAt(s, f, k);
    b, j := FlattenAt(s, f, m);
    if b < a {
      assert s[..a] == s[..b] + s[b..a];
      FlattenAppend(s[..b], s[b..a], f);
    }
  }

  /** Of two listed blocks the one that stands first is not handed out last. */
  lemma BlocksInOrder(sorted: bool, before: seq<nat>, after: seq<nat>, free: seq<Interval>, order: seq<Interval>,
                      k: nat, m: nat)
    requires Collected(before, after, free) && multiset(order) == multiset(free) && IntervalsInOrder(sorted, order)
    requires k <= m < |BlocksOf(order)|
    ensures !BlockFirst(sorted, before, after, BlocksOf(order)[m], BlocksOf(order)[k])
  {
    var a, i, b, j := FlattenInOrder(order, RangeOf, k, m);
    var x, y := BlocksOf(order)[k], BlocksOf(order)[m];
    assert order[a] in multiset(free) && order[b] in multiset(free);
    RunOfInterval(before, after, free, order[a], x);
    RunOfInterval(before, after, free, order[b], y);
    if a < b { Apart(free, |before|, order[a], order[b], x, y); }
  }

  /** Blocks of two collected intervals are in the order of these. */
  lemma Apart(free: seq<Interval>, bound: nat, a: Interval, b: Interval, x: nat, y: nat)
    requires Separated(free, bound) && a in free && b in free && a.lo <= x < a.hi && b.lo <= y < b.hi
    ensures a.lo < b.lo ==> x < y
  {
    var i :| 0 <= i < |free| && free[i] == a;
    var j :| 0 <= j < |free| && free[j] == b;
    if i < j { assert free[i].hi < free[j].lo; }
    if j < i { assert free[j].hi < free[i].lo; }
  }

  /** Of two receivers the one that stands first is served first. */
  lemma ReceiversInOrder(sorted: bool, m: map<nat, nat>, requests: seq<Request>, handed: seq<Request>, k: nat, n: nat)
    requires Fresh(m, requests) && ServedInOrder(sorted, requests, handed) && k <= n < |Receivers(handed)|
    ensures var p, q := Receivers(handed)[k], Receivers(handed)[n]; p == q || IdFirst(sorted, requests, p, q)
  {
    var a, i, b, j := FlattenInOrder(handed, Copies, k, n);
    if a < b {
      assert handed[a] in multiset(requests) && handed[b] in multiset(requests);
      var c :| 0 <= c < |requests| && requests[c] == handed[a];
      var d :| 0 <= d < |requests| && requests[d] == handed[b];
      PlaceAt(requests, c);
      PlaceAt(requests, d);
      if sorted { assert RequestFirst(true, requests, c, d); } else { assert RequestFirst(false, requests, a, b); }
    }
  }

  /** Either strategy hands the blocks out in turn. */
  lemma HandedInTurn(sorted: bool, before: seq<nat>, free: seq<Interval>, order: seq<Interval>, m: map<nat, nat>,
                     requests: seq<Request>, handed: seq<Request>, after: seq<nat>)
    requires Collected(before, after, free) && multiset(order) == multiset(free) && IntervalsInOrder(sorted, order)
    requires Fresh(m, requests) && ServedInOrder(sorted, requests, handed)
    requires InSpace(BlocksOf(order), |before|) && Distinct(BlocksOf(order))
    requires |BlocksOf(order)| == |Receivers(handed)|
    requires after == Assign(before, BlocksOf(order), Receivers(handed))
    ensures InTurn(sorted, before, after, requests)
  {
    var blocks, ids := BlocksOf(order), Receivers(handed);
    AssignEffect(before, blocks, ids);
    forall x: nat, y: nat |
      MovedAt(before, after, x) && MovedAt(before, after, y) && BlockFirst(sorted, before, after, x, y)
      ensures after[x] == after[y] || IdFirst(sorted, requests, after[x], after[y])
    {
      assert x in blocks && y in blocks;
      var k :| 0 <= k < |blocks| && blocks[k] == x;
      var n :| 0 <= n < |blocks| && blocks[n] == y;
      if n <= k { BlocksInOrder(sorted, before, after, free, order, n, k); }
      ReceiversInOrder(sorted, m, requests, handed, k, n);
    }
  }

  /** One redistribution, with either way of reusing the space. */
  lemma {:induction false} TakenInTurn(sorted: bool, owners: seq<nat>, quotas: map<nat, nat>, free: seq<Interval>,
                                       left: map<nat, nat>, order: seq<Interval>, requests: seq<Request>,
                                       handed: seq<Request>)
    requires Swept(owners, quotas, free, left, |owners|)
    requires forall x | 0 <= x < |owners| :: owners[x] in quotas
    requires forall p | p in quotas :: quotas[p] <= Owned(owners, p)
    requires multiset(order) == multiset(free) && IntervalsInOrder(sorted, order)
    requires ServedInOrder(sorted, requests, handed)
    requires Fresh(quotas, requests) && SumMap(quotas) == SumSeq(Sizes(requests))
    ensures InSpace(BlocksOf(order), |owners|)
    ensures InTurn(sorted, owners, Assign(owners, BlocksOf(order), Receivers(handed)), requests)
  {
    Effect(owners, quotas, free, left, order, requests, handed);
    LeftoversAreZero(owners, quotas, free, left);
    OrderIrrelevant(owners, free, order, requests, handed);
    ReceiversLength(requests);
    var after := Assign(owners, BlocksOf(order), Receivers(handed));
    assert Collected(owners, after, free) by {
      forall x: nat ensures MovedAt(owners, after, x) <==> InFree(free, x) {}
    }
    HandedInTurn(sorted, owners, free, order, quotas, requests, handed, after);
  }

  // ---- there is only one outcome ----

  /** Two outcomes that move the same blocks have the same runs. */
  lemma {:induction false} SameRunStart(before: seq<nat>, a: seq<nat>, b: seq<nat>, x: nat)
    requires SameMoved(before, a, b)
    ensures RunStart(before, a, x) == RunStart(before, b, x)
  {
    if x > 0 && MovedAt(before, a, x - 1) { SameRunStart(before, a, b, x - 1); }
  }

  lemma {:induction false} SameRunEnd(before: seq<nat>, a: seq<nat>, b: seq<nat>, x: nat)
    requires SameMoved(before, a, b)
    ensures RunEnd(before, a, x) == RunEnd(before, b, x)
    decreases if x < |before| then |before| - x else 0
  {
    if MovedAt(before, a, x) { SameRunEnd(before, a, b, x + 1); }
  }

  ghost predicate SameMoved(before: seq<nat>, a: seq<nat>, b: seq<nat>) {
    |a| == |b| == |before| && forall x: nat :: MovedAt(before, a, x) <==> MovedAt(before, b, x)
  }

  lemma SameBlockFirst(sorted: bool, before: seq<nat>, a: seq<nat>, b: seq<nat>, x: nat, y: nat)
    requires SameMoved(before, a, b)
    ensures BlockFirst(sorted, before, a, x, y) <==> BlockFirst(sorted, before, b, x, y)
  {
    SameRunStart(before, a, b, x);
    SameRunEnd(before, a, b, x);
    SameRunStart(before, a, b, y);
    SameRunEnd(before, a, b, y);
  }

  /** A set of blocks has one that is handed out before all others. */
  lemma {:induction false} FirstOf(sorted: bool, before: seq<nat>, after: seq<nat>, blocks: set<nat>) returns (x: nat)
    requires blocks != {}
    ensures x in blocks && forall y | y in blocks :: !BlockFirst(sorted, before, after, y, x)
    decreases |blocks|
  {
    x :| x in blocks;
    var rest := blocks - {x};
    if rest != {} {
      var d := x;
      var y := FirstOf(sorted, before, after, rest);
      if BlockFirst(sorted, before, after, y, x) { x := y; }
      forall z | z in blocks ensures !BlockFirst(sorted, before, after, z, x) {
        if z != d { assert z in rest && !BlockFirst(sorted, before, after, z, y); }
      }
    }
  }

  /** Where id owns equally many blocks, but b gives it none that a does not, and one less, there is a contradiction. */
  lemma {:induction false} LosesOne(a: seq<nat>, b: seq<nat>, hi: nat, id: nat, x: nat)
    requires hi <= |a| && hi <= |b|
    requires forall y | 0 <= y < hi && b[y] == id :: a[y] == id
    ensures Count(b, 0, hi, id) <= Count(a, 0, hi, id)
    ensures x < hi && a[x] == id != b[x] ==> Count(b, 0, hi, id) < Count(a, 0, hi, id)
  {
    if hi > 0 { LosesOne(a, b, hi - 1, id, x); }
  }

  /** If x is the first block on which two outcomes differ, they cannot give it to p and to a later q. */
  lemma {:induction false} NoClash(sorted: bool, before: seq<nat>, a: seq<nat>, b: seq<nat>, m: map<nat, nat>,
                                   requests: seq<Request>, x: nat)
    requires SameMoved(before, a, b) && InTurn(sorted, before, b, requests) && Fresh(m, requests)
    requires x < |before| && a[x] != b[x] && Owned(a, a[x]) == Owned(b, a[x])
    requires forall y | 0 <= y < |before| && a[y] != b[y] :: !BlockFirst(sorted, before, a, y, x)
    ensures !IdFirst(sorted, requests, a[x], b[x])
  {
    if forall y | 0 <= y < |before| && b[y] == a[x] :: a[y] == a[x] {
      LosesOne(a, b, |before|, a[x], x);
      assert false;
    }
    var y :| 0 <= y < |before| && b[y] == a[x] && a[y] != a[x];
    assert MovedAt(before, a, x) && MovedAt(before, b, y) && MovedAt(before, a, y) by {
      assert MovedAt(before, a, x) <==> MovedAt(before, b, x);
      assert MovedAt(before, a, y) <==> MovedAt(before, b, y);
    }
    assert BlockFirst(sorted, before, a, x, y) && MovedAt(before, b, x);
    SameBlockFirst(sorted, before, a, b, x, y);
    assert IdFirst(sorted, requests, b[x], a[x]);
    NotBothFirst(sorted, m, requests, a[x], b[x]);
  }

  lemma NotBothFirst(sorted: bool, m: map<nat, nat>, requests: seq<Request>, p: nat, q: nat)
    requires Fresh(m, requests) && p != q
    ensures !(IdFirst(sorted, requests, p, q) && IdFirst(sorted, requests, q, p))
    ensures Listed(requests, p) && Listed(requests, q)
            ==> IdFirst(sorted, requests, p, q) || IdFirst(sorted, requests, q, p)
  {
    if Listed(requests, p) && Listed(requests, q) {
      var i :| 0 <= i < |requests| && requests[i].id == p;
      var j :| 0 <= j < |requests| && requests[j].id == q;
      assert RequestFirst(sorted, requests, i, j) || RequestFirst(sorted, requests, j, i);
    }
  }

  /** The moved blocks, the sizes and the order determine the new owner of every block. */
  lemma {:induction false} HandoverDetermined(sorted: bool, before: seq<nat>, a: seq<nat>, b: seq<nat>,
                                              quotas: map<nat, nat>, requests: seq<Request>)
    requires Fresh(quotas, requests) && SameMoved(before, a, b)
    requires Redistributed(before, a, quotas, requests) && Redistributed(before, b, quotas, requests)
    requires InTurn(sorted, before, a, requests) && InTurn(sorted, before, b, requests)
    ensures a == b
  {
    var apart := set y | 0 <= y < |before| && a[y] != b[y];
    if apart != {} {
      var x := FirstOf(sorted, before, a, apart);
      assert MovedAt(before, a, x) <==> MovedAt(before, b, x);
      assert Listed(requests, a[x]) && Listed(requests, b[x]);
      NotBothFirst(sorted, quotas, requests, a[x], b[x]);
      forall y | 0 <= y < |before| && a[y] != b[y]
        ensures !BlockFirst(sorted, before, a, y, x) && !BlockFirst(sorted, before, b, y, x)
      {
        assert y in apart;
        SameBlockFirst(sorted, before, a, b, y, x);
      }
      NoClash(sorted, before, a, b, quotas, requests, x);
      NoClash(sorted, before, b, a, quotas, requests, x);
    } else {
      forall y | 0 <= y < |before| ensures a[y] == b[y] {
        assert y !in apart;
      }
    }
  }
}
