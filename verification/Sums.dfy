/** Sums of values over sets of indices. */
module Sums {

  /** The sum of the values at the indices in `s`. */
  function SumIn(v: seq<int>, s: set<nat>): int {
    SumTo(v, s, |v|)
  }

  function SumTo(v: seq<int>, s: set<nat>, n: nat): int
    requires n <= |v|
  {
    if n == 0 then 0 else SumTo(v, s, n - 1) + if n - 1 in s then v[n - 1] else 0
  }

  lemma {:induction false} SumToInsert(v: seq<int>, s: set<nat>, x: nat, n: nat)
    requires x !in s && x < |v| && n <= |v|
    ensures SumTo(v, s + {x}, n) == SumTo(v, s, n) + if x < n then v[x] else 0
  {
    if n > 0 {
      SumToInsert(v, s, x, n - 1);
    }
  }

  lemma SumInsert(v: seq<int>, s: set<nat>, x: nat)
    requires x !in s && x < |v|
    ensures SumIn(v, s + {x}) == SumIn(v, s) + v[x]
  {
    SumToInsert(v, s, x, |v|);
  }

  lemma {:induction false} SumToEmpty(v: seq<int>, n: nat)
    requires n <= |v|
    ensures SumTo(v, {}, n) == 0
  {
    if n > 0 {
      SumToEmpty(v, n - 1);
    }
  }

  /** Sums depend only on the values at the indices in the set. */
  lemma {:induction false} SumToEqual(v: seq<int>, w: seq<int>, s: set<nat>, n: nat)
    requires n <= |v| && n <= |w|
    requires forall i: nat :: i < n && i in s ==> v[i] == w[i]
    ensures SumTo(v, s, n) == SumTo(w, s, n)
  {
    if n > 0 {
      SumToEqual(v, w, s, n - 1);
    }
  }

  lemma {:induction false} SumToAdd(u: seq<int>, v: seq<int>, w: seq<int>, s: set<nat>, n: nat)
    requires n <= |u| && n <= |v| && n <= |w|
    requires forall i: nat :: i < n && i in s ==> u[i] == v[i] + w[i]
    ensures SumTo(u, s, n) == SumTo(v, s, n) + SumTo(w, s, n)
  {
    if n > 0 {
      SumToAdd(u, v, w, s, n - 1);
    }
  }

  lemma {:induction false} SumToBounds(v: seq<int>, s: set<nat>, n: nat, lo: int, hi: int)
    requires n <= |v|
    requires lo <= 0 <= hi && forall i: nat :: i < n && i in s ==> lo <= v[i] <= hi
    ensures n * lo <= SumTo(v, s, n) <= n * hi
  {
    if n > 0 {
      SumToBounds(v, s, n - 1, lo, hi);
      assert n * lo == (n - 1) * lo + lo && n * hi == (n - 1) * hi + hi;
    }
  }

  /** Changing one value that is in the set changes the sum by the difference. */
  lemma {:induction false} SumToUpdate(v: seq<int>, w: seq<int>, s: set<nat>, x: nat, n: nat)
    requires n <= |v| == |w| && x < |v| && x in s
    requires forall i: nat :: i < |v| && i != x && i in s ==> v[i] == w[i]
    ensures SumTo(w, s, n) == SumTo(v, s, n) + if x < n then w[x] - v[x] else 0
  {
    if n > 0 {
      SumToUpdate(v, w, s, x, n - 1);
    }
  }

  lemma {:induction false} SumToUnion(v: seq<int>, s: set<nat>, t: set<nat>, n: nat)
    requires n <= |v| && s !! t
    ensures SumTo(v, s + t, n) == SumTo(v, s, n) + SumTo(v, t, n)
  {
    if n > 0 {
      SumToUnion(v, s, t, n - 1);
    }
  }

  /** Larger values have a larger sum. */
  lemma {:induction false} SumToMonotone(v: seq<int>, w: seq<int>, s: set<nat>, n: nat)
    requires n <= |v| && n <= |w|
    requires forall i: nat :: i < n && i in s ==> v[i] <= w[i]
    ensures SumTo(v, s, n) <= SumTo(w, s, n)
  {
    if n > 0 {
      SumToMonotone(v, w, s, n - 1);
    }
  }

  /** Indices beyond the set add nothing. */
  lemma {:induction false} SumToBeyond(v: seq<int>, s: set<nat>, m: nat, n: nat)
    requires m <= n <= |v| && forall x :: x in s ==> x < m
    ensures SumTo(v, s, n) == SumTo(v, s, m)
  {
    if m < n {
      SumToBeyond(v, s, m, n - 1);
    }
  }
}
