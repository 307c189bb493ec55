/** Sums over sequences and finite maps, shared by the placement models. */
module Sums {

  function SumSeq(s: seq<nat>): nat {
    if s == [] then 0 else SumSeq(s[..|s|-1]) + s[|s|-1]
  }

  lemma {:induction false} SumSeqAppend(s: seq<nat>, t: seq<nat>)
    ensures SumSeq(s + t) == SumSeq(s) + SumSeq(t)
  {
    if t == [] {
      assert s + t == s;
    } else {
      assert (s + t)[..|s + t|-1] == s + t[..|t|-1];
      SumSeqAppend(s, t[..|t|-1]);
    }
  }

  /** The sum of the values of a map; the order of the additions does not matter (SumMapRemove). */
  ghost function SumMap(m: map<nat, nat>): nat
    decreases |m.Keys|
  {
    if m == map[] then 0
    else
      var k :| k in m;
      assert (m - {k}).Keys == m.Keys - {k};
      m[k] + SumMap(m - {k})
  }

  lemma {:induction false} SumMapRemove(m: map<nat, nat>, k: nat)
    requires k in m
    ensures SumMap(m) == m[k] + SumMap(m - {k})
    decreases |m.Keys|
  {
    var c :| c in m && SumMap(m) == m[c] + SumMap(m - {c});
    if c != k {
      assert (m - {c}).Keys == m.Keys - {c};
      assert (m - {k}).Keys == m.Keys - {k};
      SumMapRemove(m - {c}, k);
      SumMapRemove(m - {k}, c);
      assert (m - {c}) - {k} == (m - {k}) - {c};
    }
  }

  lemma SumMapUpdate(m: map<nat, nat>, k: nat, v: nat)
    ensures SumMap(m[k := v]) == SumMap(m) - (if k in m then m[k] else 0) + v
  {
    SumMapRemove(m[k := v], k);
    assert m[k := v] - {k} == m - {k};
    if k in m {
      SumMapRemove(m, k);
    } else {
      assert m - {k} == m;
    }
  }

  lemma {:induction false} SumMapZero(m: map<nat, nat>)
    requires forall k | k in m :: m[k] == 0
    ensures SumMap(m) == 0
    decreases |m.Keys|
  {
    if m != map[] {
      var k :| k in m;
      assert (m - {k}).Keys == m.Keys - {k};
      SumMapZero(m - {k});
      SumMapRemove(m, k);
    }
  }

  /** Equal maps have equal sums, and a pointwise smaller map on the same keys has a smaller sum. */
  lemma {:induction false} SumMapMonotone(a: map<nat, nat>, b: map<nat, nat>)
    requires a.Keys == b.Keys
    requires forall k | k in a :: a[k] <= b[k]
    ensures SumMap(a) <= SumMap(b)
    decreases |a.Keys|
  {
    if a == map[] {
      assert b == map[];
    } else {
      var k :| k in a;
      assert (a - {k}).Keys == a.Keys - {k} == (b - {k}).Keys;
      SumMapMonotone(a - {k}, b - {k});
      SumMapRemove(a, k);
      SumMapRemove(b, k);
    }
  }
}
