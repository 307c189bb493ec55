/** Proportional shares of the block space, rounded down, and how much rounding can lose in total. */
module Quotas {
  import opened Arithmetic
  import opened Sums
  import opened FreeSpace

  /** floor(c * V / C): the blocks of a space of V due to capacity c out of C. */
  function Quota(c: nat, V: nat, C: nat): nat
    requires C > 0
  {
    c * V / C
  }

  lemma QuotaBounds(c: nat, V: nat, C: nat)
    requires C > 0
    ensures Quota(c, V, C) * C <= c * V < Quota(c, V, C) * C + C
  {
  }

  /** Growing the system never grows an old disk's share. */
  lemma QuotaShrinks(c: nat, V: nat, C: nat, C': nat)
    requires 0 < C <= C'
    ensures Quota(c, V, C') <= Quota(c, V, C)
  {
    QuotaBounds(c, V, C);
    QuotaBounds(c, V, C');
    var q, q' := Quota(c, V, C), Quota(c, V, C');
    if q' > q {
      assert (q + 1) * C <= q' * C <= q' * C' by { MulMonotone(q + 1, q', C); MulMonotone(C, C', q'); }
    }
  }

  /** The shares of all disks of a map. */
  function QuotaMap(disks: map<nat, nat>, V: nat, C: nat): map<nat, nat>
    requires C > 0
  {
    map id | id in disks :: Quota(disks[id], V, C)
  }

  lemma {:induction false} QuotaMapRemove(disks: map<nat, nat>, V: nat, C: nat, k: nat)
    requires C > 0 && k in disks
    ensures (disks - {k}).Keys == disks.Keys - {k} && |disks| == |disks - {k}| + 1
    ensures SumMap(disks) == disks[k] + SumMap(disks - {k})
    ensures SumMap(QuotaMap(disks, V, C)) == Quota(disks[k], V, C) + SumMap(QuotaMap(disks - {k}, V, C))
  {
    assert (disks - {k}).Keys == disks.Keys - {k};
    assert |disks.Keys| == |(disks - {k}).Keys| + 1;
    SumMapRemove(disks, k);
    SumMapRemove(QuotaMap(disks, V, C), k);
    assert QuotaMap(disks, V, C) - {k} == QuotaMap(disks - {k}, V, C);
  }

  /** Flooring loses less than one C-th per disk. */
  ghost predicate Floored(disks: map<nat, nat>, V: nat, C: nat)
    requires C > 0
  {
    FlooredSum(SumMap(QuotaMap(disks, V, C)), SumMap(disks), |disks|, V, C)
  }

  /** s is t * V / C up to what flooring n times can lose. */
  ghost predicate FlooredSum(s: nat, t: nat, n: nat, V: nat, C: nat) {
    s * C <= t * V <= s * C + n * (C - 1)
  }

  lemma {:induction false} QuotaMapSum(disks: map<nat, nat>, V: nat, C: nat)
    requires C > 0
    ensures Floored(disks, V, C)
    decreases |disks.Keys|
  {
    if disks == map[] {
      assert QuotaMap(disks, V, C) == map[];
    } else {
      var k :| k in disks;
      QuotaMapRemove(disks, V, C, k);
      QuotaMapSum(disks - {k}, V, C);
      FlooredWith(disks, V, C, k);
    }
  }

  lemma FlooredWith(disks: map<nat, nat>, V: nat, C: nat, k: nat)
    requires C > 0 && k in disks && Floored(disks - {k}, V, C)
    ensures Floored(disks, V, C)
  {
    var rest := disks - {k};
    QuotaMapRemove(disks, V, C, k);
    QuotaBounds(disks[k], V, C);
    var s, t := SumMap(QuotaMap(rest, V, C)), SumMap(rest);
    AddBounds(Quota(disks[k], V, C), disks[k], s, t, V, C, |rest|);
  }

  lemma AddBounds(q: nat, c: nat, s: nat, t: nat, V: nat, C: nat, n: nat)
    requires C > 0 && q * C <= c * V < q * C + C && FlooredSum(s, t, n, V, C)
    ensures FlooredSum(q + s, c + t, n + 1, V, C)
  {
    assert (q + s) * C == q * C + s * C;
    assert (c + t) * V == c * V + t * V;
    assert (n + 1) * (C - 1) == n * (C - 1) + (C - 1);
  }

  /** When C is the total capacity, rounding down loses less than one block per disk. */
  lemma {:induction false} QuotaLoss(disks: map<nat, nat>, V: nat)
    requires SumMap(disks) > 0
    ensures var s := SumMap(QuotaMap(disks, V, SumMap(disks))); s <= V < s + |disks|
  {
    var C := SumMap(disks);
    var s := SumMap(QuotaMap(disks, V, C));
    QuotaMapSum(disks, V, C);
    assert disks != map[];
    LossBound(s, V, C, |disks|);
  }

  lemma LossBound(s: nat, V: nat, C: nat, n: nat)
    requires C > 0 && n > 0 && s * C <= C * V <= s * C + n * (C - 1)
    ensures s <= V < s + n
  {
    assert (s + n) * C == s * C + n * (C - 1) + n;
    if s > V { MulMonotone(V + 1, s, C); }
    if V >= s + n { MulMonotone(s + n, V, C); }
  }

  /** A map with the entries of a list added in order. */
  function Extend(m: map<nat, nat>, entries: seq<Request>): map<nat, nat> {
    if entries == [] then m
    else var last := entries[|entries|-1]; Extend(m, entries[..|entries|-1])[last.id := last.size]
  }

  /** Pairwise different ids, none of them already a key. */
  ghost predicate Fresh(m: map<nat, nat>, entries: seq<Request>) {
    && (forall i, j | 0 <= i < j < |entries| :: entries[i].id != entries[j].id)
    && (forall i | 0 <= i < |entries| :: entries[i].id !in m)
  }

  ghost predicate Listed(entries: seq<Request>, id: nat) {
    exists i :: 0 <= i < |entries| && entries[i].id == id
  }

  lemma {:induction false} ExtendKeys(m: map<nat, nat>, entries: seq<Request>, id: nat)
    ensures id in Extend(m, entries) <==> id in m || Listed(entries, id)
    ensures id in m && !Listed(entries, id) ==> Extend(m, entries)[id] == m[id]
  {
    if entries != [] {
      var n := |entries| - 1;
      ExtendKeys(m, entries[..n], id);
      if Listed(entries[..n], id) {
        var i :| 0 <= i < n && entries[..n][i].id == id;
        assert entries[i].id == id;
      }
      if Listed(entries, id) {
        var i :| 0 <= i < |entries| && entries[i].id == id;
        assert i < n ==> entries[..n][i].id == id;
      }
      assert id == entries[n].id ==> Listed(entries, id);
    }
  }

  lemma {:induction false} ExtendValue(m: map<nat, nat>, entries: seq<Request>, i: nat)
    requires Fresh(m, entries) && i < |entries|
    ensures entries[i].id in Extend(m, entries) && Extend(m, entries)[entries[i].id] == entries[i].size
  {
    var n := |entries| - 1;
    if i < n {
      ExtendValue(m, entries[..n], i);
    }
  }

  lemma {:induction false} ExtendSum(m: map<nat, nat>, entries: seq<Request>)
    requires Fresh(m, entries)
    ensures SumMap(Extend(m, entries)) == SumMap(m) + SumSeq(Sizes(entries))
    ensures |Extend(m, entries)| == |m| + |entries|
  {
    if entries != [] {
      var n := |entries| - 1;
      var front, last := entries[..n], entries[n];
      ExtendSum(m, front);
      ExtendKeys(m, front, last.id);
      SumMapUpdate(Extend(m, front), last.id, last.size);
      assert Sizes(entries)[..n] == Sizes(front);
      assert Extend(m, entries).Keys == Extend(m, front).Keys + {last.id};
    }
  }
}
