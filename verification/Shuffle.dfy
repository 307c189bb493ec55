/**
 The partial shuffle of RUSH_R on the identity permutation: each draw swaps a random place with the
 last place not yet drawn, and the drawn places alone are enough to undo everything.
 */
module Shuffle {
  import opened Arithmetic
  import opened Sequences
  import opened WichmannHill

  function Truncate(x: real): int { if x >= 0.0 then x.Floor else -((-x).Floor) }

  function Scale(u: real, m: nat): real { u * m as real }

  /** The place drawn among m places. */
  function Choice(s: State, m: nat): int { Truncate(Scale(Uniform(s), m)) }

  /** Of m places the one that contains u * m is drawn: each for a part 1 / m of the numbers from zero on. */
  lemma ChoiceExactly(s: State, m: nat, j: nat)
    requires 0.0 <= Uniform(s)
    ensures Choice(s, m) == j <==> j as real <= Uniform(s) * m as real < j as real + 1.0
  {
    NonNegative(Uniform(s), m as real);
  }

  lemma ChoiceBelow(s: State, m: nat)
    requires m > 0
    ensures Choice(s, m) < m
    ensures 0.0 <= Uniform(s) ==> 0 <= Choice(s, m)
  {
    if 0.0 <= Uniform(s) {
      ScaleInRange(Uniform(s), m);
    } else {
      PositiveProduct(-Uniform(s), m as real);
      assert Scale(Uniform(s), m) == -(-Uniform(s) * m as real);
    }
  }

  lemma ScaleInRange(u: real, m: nat)
    requires 0.0 <= u < 1.0 && m > 0
    ensures 0.0 <= Scale(u, m) < m as real
  {
    var v := 1.0 - u;
    assert u * m as real >= 0.0;
    assert v * m as real > 0.0;
    assert v * m as real == m as real - u * m as real;
  }

  /** The first k draws from n places are places: none lies before the scratch area. */
  predicate DrawsPlaces(s: State, n: nat, k: nat)
    requires k <= n
  {
    k == 0 || (DrawsPlaces(s, n, k - 1) && 0 <= Choice(Steps(s, k), n - k + 1))
  }

  lemma {:induction false} DrawsPlacesBefore(s: State, n: nat, i: nat, k: nat)
    requires i <= k <= n && DrawsPlaces(s, n, k)
    ensures DrawsPlaces(s, n, i)
    decreases k
  {
    if i < k { DrawsPlacesBefore(s, n, i, k - 1); }
  }

  /** A generator that gives no negative numbers draws places only. */
  lemma {:induction false} NeverNegativeDraws(s: State, n: nat, k: nat)
    requires k <= n && NeverNegative(s)
    ensures DrawsPlaces(s, n, k)
  {
    if k > 0 {
      NeverNegativeDraws(s, n, k - 1);
      ChoiceBelow(Steps(s, k), n - k + 1);
    }
  }

  function Identity(n: nat): (a: seq<nat>)
    ensures |a| == n && forall p | 0 <= p < n :: a[p] == p
  {
    seq(n, p requires 0 <= p < n => p)
  }

  function Swap(a: seq<nat>, p: nat, q: nat): (b: seq<nat>)
    requires p < |a| && q < |a|
    ensures |b| == |a| && b[p] == a[q] && b[q] == a[p]
    ensures forall r | 0 <= r < |a| && r != p && r != q :: b[r] == a[r]
  {
    a[p := a[q]][q := a[p]]
  }

  /** The place drawn in the k-th draw among the first n places, the generator starting at s. */
  function Draw(s: State, n: nat, k: nat): (c: nat)
    requires 0 < k <= n && DrawsPlaces(s, n, k)
    ensures c <= n - k
  {
    ChoiceBelow(Steps(s, k), n - k + 1);
    Choice(Steps(s, k), n - k + 1)
  }

  /** The places after k draws among the first n. */
  function Shuffled(a: seq<nat>, n: nat, k: nat, s: State): (b: seq<nat>)
    requires k <= n <= |a| && DrawsPlaces(s, n, k)
    ensures |b| == |a|
  {
    if k == 0 then a else Swap(Shuffled(a, n, k - 1, s), n - k, Draw(s, n, k))
  }

  /** What k draws from 0, ..., n - 1 return, using a scratch area of size total. */
  function Drawn(total: nat, n: nat, k: nat, s: State): (r: seq<nat>)
    requires k <= n <= total && DrawsPlaces(s, n, k)
    ensures |r| == k
  {
    Shuffled(Identity(total), n, k, s)[n-k..n]
  }

  /** The first n places hold different numbers below n, the rest their own index. */
  ghost predicate Permuted(a: seq<nat>, n: nat) {
    && n <= |a| && Distinct(a)
    && (forall p | 0 <= p < n :: a[p] < n)
    && (forall p | n <= p < |a| :: a[p] == p)
  }

  lemma SwapPermuted(a: seq<nat>, n: nat, p: nat, q: nat)
    requires Permuted(a, n) && p < n && q < n
    ensures Permuted(Swap(a, p, q), n)
  {
    var b := Swap(a, p, q);
    forall i, j | 0 <= i < j < |b| ensures b[i] != b[j] {
      var x, y := if i == p then q else if i == q then p else i, if j == p then q else if j == q then p else j;
      assert b[i] == a[x] && b[j] == a[y] && x != y;
      if x < y { assert a[x] != a[y]; } else { assert a[y] != a[x]; }
    }
  }

  lemma {:induction false} ShuffledPermuted(total: nat, n: nat, k: nat, s: State)
    requires k <= n <= total && DrawsPlaces(s, n, k)
    ensures Permuted(Shuffled(Identity(total), n, k, s), n)
  {
    if k > 0 {
      ShuffledPermuted(total, n, k - 1, s);
      SwapPermuted(Shuffled(Identity(total), n, k - 1, s), n, n - k, Draw(s, n, k));
    }
  }

  /** The same places drawn leave the same scratch area. */
  lemma {:induction false} SameDraws(a: seq<nat>, n: nat, k: nat, s: State, t: State)
    requires k <= n <= |a| && DrawsPlaces(s, n, k) && DrawsPlaces(t, n, k)
    requires forall i: nat | 0 < i <= k :: Choice(Steps(s, i), n - i + 1) == Choice(Steps(t, i), n - i + 1)
    ensures Shuffled(a, n, k, s) == Shuffled(a, n, k, t)
  {
    if k > 0 { SameDraws(a, n, k - 1, s, t); }
  }

  /** No two ways of drawing give the same results, so each is as likely as its draws. */
  lemma {:induction false} ResultsTellDraws(total: nat, n: nat, k: nat, s: State, t: State)
    requires k <= n <= total && DrawsPlaces(s, n, k) && DrawsPlaces(t, n, k)
    requires Drawn(total, n, k, s) == Drawn(total, n, k, t)
    ensures forall i: nat | 0 < i <= k :: Choice(Steps(s, i), n - i + 1) == Choice(Steps(t, i), n - i + 1)
  {
    if k > 0 {
      EarlierResults(total, n, k, s, t);
      ResultsTellDraws(total, n, k - 1, s, t);
      LastDrawTold(total, n, k, s, t);
    }
  }

  lemma EarlierResults(total: nat, n: nat, k: nat, s: State, t: State)
    requires 0 < k <= n <= total && DrawsPlaces(s, n, k) && DrawsPlaces(t, n, k)
    requires Drawn(total, n, k, s) == Drawn(total, n, k, t)
    ensures Drawn(total, n, k - 1, s) == Drawn(total, n, k - 1, t)
    ensures Drawn(total, n, k, s)[0] == Drawn(total, n, k, t)[0]
  {
    LaterDrawsKeep(total, n, k, s);
    LaterDrawsKeep(total, n, k, t);
  }

  lemma LastDrawTold(total: nat, n: nat, k: nat, s: State, t: State)
    requires 0 < k <= n <= total && DrawsPlaces(s, n, k) && DrawsPlaces(t, n, k)
    requires forall i: nat | 0 < i < k :: Choice(Steps(s, i), n - i + 1) == Choice(Steps(t, i), n - i + 1)
    requires Drawn(total, n, k, s)[0] == Drawn(total, n, k, t)[0]
    ensures Choice(Steps(s, k), n - k + 1) == Choice(Steps(t, k), n - k + 1)
  {
    LaterDrawsKeep(total, n, k, s);
    LaterDrawsKeep(total, n, k, t);
    var b := SameBefore(total, n, k, s, t);
    SamePlace(b, n, Draw(s, n, k), Draw(t, n, k));
  }

  lemma SameBefore(total: nat, n: nat, k: nat, s: State, t: State) returns (b: seq<nat>)
    requires 0 < k <= n <= total && DrawsPlaces(s, n, k) && DrawsPlaces(t, n, k)
    requires forall i: nat | 0 < i < k :: Choice(Steps(s, i), n - i + 1) == Choice(Steps(t, i), n - i + 1)
    ensures |b| == total && Permuted(b, n)
    ensures Shuffled(Identity(total), n, k - 1, s) == b == Shuffled(Identity(total), n, k - 1, t)
  {
    b := Shuffled(Identity(total), n, k - 1, s);
    SameDraws(Identity(total), n, k - 1, s, t);
    ShuffledPermuted(total, n, k - 1, s);
  }

  lemma SamePlace(b: seq<nat>, n: nat, p: nat, q: nat)
    requires Permuted(b, n) && p < |b| && q < |b| && b[p] == b[q]
    ensures p == q
  {
  }

  /** The k-th draw puts its result in front of the earlier ones. */
  lemma LaterDrawsKeep(total: nat, n: nat, k: nat, s: State)
    requires 0 < k <= n <= total && DrawsPlaces(s, n, k)
    ensures Drawn(total, n, k, s)[0] == Shuffled(Identity(total), n, k - 1, s)[Draw(s, n, k)]
    ensures Drawn(total, n, k, s)[1..] == Drawn(total, n, k - 1, s)
  {
  }

  /** The k results are different numbers below n, whatever was drawn. */
  lemma DrawnDistinct(total: nat, n: nat, k: nat, s: State)
    requires k <= n <= total && DrawsPlaces(s, n, k)
    ensures Distinct(Drawn(total, n, k, s))
    ensures forall i | 0 <= i < k :: Drawn(total, n, k, s)[i] < n
  {
    ShuffledPermuted(total, n, k, s);
    var b, r := Shuffled(Identity(total), n, k, s), Drawn(total, n, k, s);
    forall i, j | 0 <= i < j < k ensures r[i] != r[j] {
      assert b[n-k+i] != b[n-k+j];
    }
    forall i | 0 <= i < k ensures r[i] < n {
      assert b[n-k+i] < n;
    }
  }

  /** The number p stands at one of the places lo, ..., n - 1. */
  ghost predicate FoundFrom(a: seq<nat>, p: nat, lo: nat, n: nat) {
    n <= |a| && exists q | lo <= q < n :: a[q] == p
  }

  /** A place before the drawn ones that has lost its number finds it among the drawn ones. */
  ghost predicate Recoverable(a: seq<nat>, lo: nat, n: nat) {
    lo <= n <= |a| && forall p | 0 <= p < lo && a[p] != p :: FoundFrom(a, p, lo, n)
  }

  lemma SwapRecoverable(a: seq<nat>, n: nat, lo: nat, c: nat)
    requires 0 < lo <= n <= |a| && Recoverable(a, lo, n) && c < lo
    ensures Recoverable(Swap(a, lo - 1, c), lo - 1, n)
  {
    var b, m := Swap(a, lo - 1, c), lo - 1;
    forall p | 0 <= p < m && b[p] != p ensures FoundFrom(b, p, m, n) {
      if p == c && a[c] == c {
        assert b[m] == p;
      } else {
        assert a[p] != p;
        assert FoundFrom(a, p, lo, n);
        var q :| lo <= q < n && a[q] == p;
        assert b[q] == p;
      }
    }
  }

  lemma {:induction false} ShuffledRecoverable(total: nat, n: nat, k: nat, s: State)
    requires k <= n <= total && DrawsPlaces(s, n, k)
    ensures Recoverable(Shuffled(Identity(total), n, k, s), n - k, n)
  {
    if k > 0 {
      ShuffledRecoverable(total, n, k - 1, s);
      SwapRecoverable(Shuffled(Identity(total), n, k - 1, s), n, n - k + 1, Draw(s, n, k));
    }
  }

  // ---- the undo ----

  /** One step of the undo, at the drawn place t, when the drawn places begin at lo. */
  function UndoAt(a: seq<nat>, lo: nat, t: nat): (b: seq<nat>)
    requires lo <= t < |a|
    ensures |b| == |a|
  {
    var choice := a[t];
    (if choice < lo then a[choice := choice] else a)[t := t]
  }

  /** The places after i steps of the undo. */
  function Undone(a: seq<nat>, lo: nat, i: nat): (b: seq<nat>)
    requires lo + i <= |a|
    ensures |b| == |a|
  {
    if i == 0 then a else UndoAt(Undone(a, lo, i - 1), lo, lo + i - 1)
  }

  /** The places are the identity again, but for numbers that the drawn places from t on still hold. */
  ghost predicate Undoing(a: seq<nat>, lo: nat, t: nat, n: nat) {
    && lo <= t <= n <= |a|
    && (forall p | 0 <= p < lo && a[p] != p :: FoundFrom(a, p, t, n))
    && (forall p | lo <= p < t :: a[p] == p)
    && (forall p | n <= p < |a| :: a[p] == p)
  }

  lemma UndoStep(a: seq<nat>, lo: nat, t: nat, n: nat)
    requires Undoing(a, lo, t, n) && t < n
    ensures Undoing(UndoAt(a, lo, t), lo, t + 1, n)
  {
    var b := UndoAt(a, lo, t);
    forall p | 0 <= p < lo && b[p] != p ensures FoundFrom(b, p, t + 1, n) {
      assert a[p] != p && p != a[t];
      assert FoundFrom(a, p, t, n);
      var q :| t <= q < n && a[q] == p;
      assert b[q] == p;
    }
  }

  lemma {:induction false} UndoingHolds(a: seq<nat>, lo: nat, n: nat, i: nat)
    requires Undoing(a, lo, lo, n) && lo + i <= n
    ensures Undoing(Undone(a, lo, i), lo, lo + i, n)
  {
    if i > 0 {
      UndoingHolds(a, lo, n, i - 1);
      UndoStep(Undone(a, lo, i - 1), lo, lo + i - 1, n);
    }
  }

  /** Undoing the k drawn places restores the identity, for any draws. */
  lemma {:induction false} UndoRestores(total: nat, n: nat, k: nat, s: State)
    requires k <= n <= total && DrawsPlaces(s, n, k)
    ensures Undone(Shuffled(Identity(total), n, k, s), n - k, k) == Identity(total)
  {
    var a := Shuffled(Identity(total), n, k, s);
    ShuffledPermuted(total, n, k, s);
    ShuffledRecoverable(total, n, k, s);
    UndoingHolds(a, n - k, n, k);
    var b := Undone(a, n - k, k);
    forall p | 0 <= p < n - k ensures b[p] == p {
      assert !FoundFrom(b, p, n, n);
    }
  }

  // ---- in place ----

  /**
   Draws k of the numbers below n into results[at..at+k]; the scratch array is the identity before
   and after. Stops at the first draw that is not a place.
   */
  method DrawKOfN(choices: array<nat>, results: array<nat>, at: nat, k: nat, n: nat, gen: Generator)
    returns (inside: bool)
    requires k <= n <= choices.Length && at + k <= results.Length && choices != results
    requires choices[..] == Identity(choices.Length)
    modifies choices, results, gen
    ensures inside <==> DrawsPlaces(old(gen.Current()), n, k)
    ensures inside ==> choices[..] == old(choices[..])
    ensures inside ==> results[..] == old(results[..at]) + Drawn(choices.Length, n, k, old(gen.Current()))
                                      + old(results[at+k..])
    ensures inside ==> gen.Current() == Steps(old(gen.Current()), k)
  {
    ghost var s := gen.Current();
    inside := ShufflePlaces(choices, k, n, gen);
    if !inside { return; }
    CopyPlaces(choices, results, at, k, n);
    RestorePlaces(choices, k, n);
    UndoRestores(choices.Length, n, k, s);
  }

  method ShufflePlaces(choices: array<nat>, k: nat, n: nat, gen: Generator) returns (inside: bool)
    requires k <= n <= choices.Length
    modifies choices, gen
    ensures inside <==> DrawsPlaces(old(gen.Current()), n, k)
    ensures inside ==> choices[..] == Shuffled(old(choices[..]), n, k, old(gen.Current()))
    ensures inside ==> gen.Current() == Steps(old(gen.Current()), k)
  {
    ghost var s := gen.Current();
    for i := 0 to k
      invariant gen.Current() == Steps(s, i) && DrawsPlaces(s, n, i)
      invariant choices[..] == Shuffled(old(choices[..]), n, i, s)
    {
      var u := gen.Random();
      var choice := Truncate(Scale(u, n - i));
      if choice < 0 {
        if DrawsPlaces(s, n, k) { DrawsPlacesBefore(s, n, i + 1, k); }
        return false;
      }
      assert choice == Draw(s, n, i + 1);
      var tmp := choices[n-1-i];
      choices[n-1-i] := choices[choice];
      choices[choice] := tmp;
    }
    inside := true;
  }

  method CopyPlaces(choices: array<nat>, results: array<nat>, at: nat, k: nat, n: nat)
    requires k <= n <= choices.Length && at + k <= results.Length && choices != results
    modifies results
    ensures results[..] == old(results[..at]) + choices[n-k..n] + old(results[at+k..])
  {
    for i := 0 to k
      invariant results[..] == old(results[..at]) + choices[n-k..n-k+i] + old(results[at+i..])
    {
      results[at+i] := choices[n-k+i];
    }
  }

  method RestorePlaces(choices: array<nat>, k: nat, n: nat)
    requires k <= n <= choices.Length
    modifies choices
    ensures choices[..] == Undone(old(choices[..]), n - k, k)
  {
    for i := 0 to k
      invariant choices[..] == Undone(old(choices[..]), n - k, i)
    {
      var choice := choices[n-k+i];
      if choice < n - k {
        choices[choice] := choice;
      }
      choices[n-k+i] := n - k + i;
    }
  }
}
