/** Joining the two least frequent nodes over and over gives the shortest code there is (Huffman's theorem). */
module HuffmanOptimal {
  import opened Arithmetic
  import opened HuffmanTree
  import opened Sums

  // ---------- the nodes without a father ----------

  /** The nodes that have no father after `k` joins. */
  function Roots(t: Shape, k: nat): set<nat>
    requires k <= |t.pairs|
  {
    t.leaves + Made(t.elems, k) - Sons(t.pairs, k)
  }

  lemma RootsStart(t: Shape)
    ensures Roots(t, 0) == t.leaves
  {
  }

  lemma RootsEnd(t: Shape)
    requires ValidShape(t)
    ensures Roots(t, |t.pairs|) == {t.Root() as nat}
  {
    var n, root := |t.pairs|, t.Root() as nat;
    forall x: nat
      ensures x in Roots(t, n) <==> x == root
    {
      assert x in Sons(t.pairs, n) <==> x in t.leaves + Made(t.elems, n - 1);
    }
  }

  lemma RootsStep(t: Shape, k: nat, a: nat, b: nat)
    requires ValidShape(t) && k < |t.pairs| && (a, b) == t.pairs[k]
    ensures a in Roots(t, k) && b in Roots(t, k) && a != b && t.elems + k !in Roots(t, k)
    ensures Roots(t, k + 1) == Roots(t, k) - {a} - {b} + {t.elems + k}
    ensures forall x :: x in Roots(t, k) ==> x < t.elems + k
  {
    assert Joins(t, k);
    SonsGrow(t.pairs, k + 1, |t.pairs|);
    forall x | x in {a, b}
      ensures x in t.leaves + Made(t.elems, k)
    {
      assert x in Sons(t.pairs, |t.pairs|);
      assert x in t.leaves + Made(t.elems, |t.pairs| - 1);
    }
    NotYetSons(t, k, t.elems + k);
    assert Made(t.elems, k + 1) == Made(t.elems, k) + {t.elems + k};
    assert Sons(t.pairs, k + 1) == Sons(t.pairs, k) + {a} + {b};
  }

  /** Sons were made before their fathers. */
  lemma {:induction false} NotYetSons(t: Shape, k: nat, x: nat)
    requires k <= |t.pairs| && x >= t.elems + k && forall j :: 0 <= j < |t.pairs| ==> Joins(t, j)
    ensures x !in Sons(t.pairs, k)
  {
    if k > 0 {
      NotYetSons(t, k - 1, x);
      assert Joins(t, k - 1);
    }
  }

  // ---------- sums over the nodes ----------

  lemma SumOfTwo(v: seq<int>, s: set<nat>, a: nat, b: nat)
    requires a in s && b in s && a != b && a < |v| && b < |v|
    ensures SumIn(v, s) == SumIn(v, s - {a} - {b}) + v[a] + v[b]
  {
    var rest := s - {a} - {b};
    SumInsert(v, rest, a);
    SumInsert(v, rest + {a}, b);
    assert rest + {a} + {b} == s;
  }

  lemma SumSame(v: seq<int>, w: seq<int>, s: set<nat>)
    requires |v| == |w| && forall x :: x in s && x < |v| ==> v[x] == w[x]
    ensures SumIn(v, s) == SumIn(w, s)
  {
    SumToEqual(v, w, s, |v|);
  }

  /** What all nodes take, if each is reached by `l` bits. */
  function Uses(freq: seq<nat>, l: seq<nat>): (v: seq<int>)
    requires |l| <= |freq|
    ensures |v| == |l| && forall x :: 0 <= x < |v| ==> v[x] == freq[x] * l[x]
  {
    seq(|l|, x requires 0 <= x < |l| => freq[x] * l[x])
  }

  /** The lengths leave room for a code: Kraft's inequality, in units of `m` bits. */
  ghost predicate Fits(l: seq<nat>, m: nat, s: set<nat>) {
    && (forall x :: 0 <= x < |l| ==> l[x] <= m) && (forall x :: x in s ==> x < |l|)
    && SumIn(Shares(l, m), s) <= Pow2(m)
  }

  function Swap(l: seq<nat>, x: nat, y: nat): (r: seq<nat>)
    requires x < |l| && y < |l|
    ensures |r| == |l| && r[x] == l[y] && r[y] == l[x]
    ensures forall z :: 0 <= z < |l| && z != x && z != y ==> r[z] == l[z]
  {
    l[x := l[y]][y := l[x]]
  }

  lemma SwappedSum(fx: int, fy: int, lx: int, ly: int)
    requires fx <= fy && lx <= ly
    ensures fx * ly + fy * lx <= fx * lx + fy * ly
  {
    MulPositive(fy - fx, ly - lx);
    assert (fy - fx) * (ly - lx) == fy * ly - fy * lx - fx * ly + fx * lx;
  }

  /** Giving the longer of two codes to the rarer of two nodes takes no more. */
  lemma Exchange(freq: seq<nat>, l: seq<nat>, m: nat, s: set<nat>, x: nat, y: nat)
    requires |l| <= |freq| && Fits(l, m, s) && x in s && y in s && freq[x] <= freq[y] && l[x] <= l[y]
    ensures Fits(Swap(l, x, y), m, s) && SumIn(Uses(freq, Swap(l, x, y)), s) <= SumIn(Uses(freq, l), s)
  {
    hide Pow2, SumIn;
    var r := Swap(l, x, y);
    if x == y {
      assert r == l;
    } else {
      var rest := s - {x} - {y};
      SumOfTwo(Shares(l, m), s, x, y);
      SumOfTwo(Shares(r, m), s, x, y);
      SumSame(Shares(l, m), Shares(r, m), rest);
      SumOfTwo(Uses(freq, l), s, x, y);
      SumOfTwo(Uses(freq, r), s, x, y);
      SumSame(Uses(freq, l), Uses(freq, r), rest);
      SwappedSum(freq[x], freq[y], l[x], l[y]);
    }
  }

  /** A node with the longest code. */
  lemma {:induction false} LongestIn(l: seq<nat>, s: set<nat>, some: nat) returns (x: nat)
    requires some in s && forall y :: y in s ==> y < |l|
    ensures x in s && forall y :: y in s ==> l[y] <= l[x]
    decreases |s|
  {
    x := some;
    if exists y :: y in s && y != some {
      var other :| other in s && other != some;
      var rest := s - {some};
      assert |rest| < |s|;
      var z := LongestIn(l, rest, other);
      if l[z] > l[some] {
        x := z;
      }
      assert forall y :: y in s ==> y in rest || y == some;
    }
  }

  // ---------- shortening a lone longest code ----------

  /** Shares of codes of at most `d` bits are multiples of the share of one of `d` bits. */
  lemma {:induction false} SharesMultiple(l: seq<nat>, m: nat, d: nat, s: set<nat>, n: nat) returns (q: nat)
    requires n <= |l| && d <= m && (forall x :: 0 <= x < |l| ==> l[x] <= m)
    requires forall x: nat :: x < n && x in s ==> l[x] <= d
    ensures q * Pow2(m - d) == SumTo(Shares(l, m), s, n)
    decreases n
  {
    q := 0;
    if n > 0 {
      q := SharesMultiple(l, m, d, s, n - 1);
      if n - 1 in s {
        var x := n - 1;
        Pow2Add(m - d, d - l[x]);
        assert m - d + (d - l[x]) == m - l[x];
        assert Shares(l, m)[x] == Pow2(m - d) * Pow2(d - l[x]);
        assert (q + Pow2(d - l[x])) * Pow2(m - d) == q * Pow2(m - d) + Pow2(m - d) * Pow2(d - l[x]);
        q := q + Pow2(d - l[x]);
      }
    }
  }

  /** A multiple of `u` below `n` units leaves a whole unit. */
  lemma RoomForOne(q: nat, n: nat, u: nat)
    requires q * u < n * u
    ensures q * u + u <= n * u
  {
    if q >= n {
      MulMonotone(u, n, q);
      assert false;
    }
    MulMonotone(u, q + 1, n);
    assert (q + 1) * u == q * u + u;
  }

  /** If only `a` may have a longer code than `b`, giving both the length of `b` still leaves room for all. */
  lemma RoomForBoth(l: seq<nat>, m: nat, s: set<nat>, a: nat, b: nat)
    requires Fits(l, m, s) && a in s && b in s && a != b && l[b] <= l[a]
    requires forall x :: x in s && x != a ==> l[x] <= l[b]
    ensures l[b] >= 1 && SumIn(Shares(l, m), s - {a} - {b}) + 2 * Pow2(m - l[b]) <= Pow2(m)
  {
    var v, d, others := Shares(l, m), l[b], s - {a};
    SumOfTwo(v, s, a, b);
    SumInsert(v, others - {b}, b);
    assert others - {b} + {b} == others;
    var q := SharesMultiple(l, m, d, others, |l|);
    Pow2Add(m - d, d);
    assert m - d + d == m && Pow2(d) * Pow2(m - d) == Pow2(m);
    RoomForOne(q, Pow2(d), Pow2(m - d));
    if d == 0 {
      ZeroLength(l, m, others, b);
      assert false;
    }
  }

  /** A code of no bits takes all the room. */
  lemma ZeroLength(l: seq<nat>, m: nat, s: set<nat>, b: nat)
    requires (forall x :: 0 <= x < |l| ==> l[x] <= m) && b in s && b < |l| && l[b] == 0
    ensures SumIn(Shares(l, m), s) >= Pow2(m)
  {
    var v := Shares(l, m);
    SumInsert(v, s - {b}, b);
    assert s - {b} + {b} == s;
    SumToNotNegative(v, s - {b}, |v|);
  }

  lemma {:induction false} SumToNotNegative(v: seq<int>, s: set<nat>, n: nat)
    requires n <= |v| && forall x :: 0 <= x < |v| ==> v[x] >= 0
    ensures SumTo(v, s, n) >= 0
  {
    if n > 0 {
      SumToNotNegative(v, s, n - 1);
    }
  }

  // ---------- the bound ----------

  /** The new node counts its sons' uses. */
  ghost predicate SumExact(t: Shape, freq: seq<nat>, k: nat)
    requires k < |t.pairs|
  {
    var (a, b) := t.pairs[k];
    a < |freq| && b < |freq| && t.elems + k < |freq| && freq[t.elems + k] == freq[a] + freq[b]
  }

  /** Two of the least frequent nodes are joined over and over, and no sum is cut. */
  ghost predicate Huffman(t: Shape, freq: seq<nat>) {
    ValidShape(t) && t.Size() <= |freq| && forall k :: 0 <= k < |t.pairs| ==> Least(t, freq, k) && SumExact(t, freq, k)
  }

  /** What the joins from step `k` on add: every join puts one bit before all symbols below it. */
  function JoinCost(t: Shape, freq: seq<nat>, k: nat): nat
    requires k <= |t.pairs| && t.Size() <= |freq|
    decreases |t.pairs| - k
  {
    if k == |t.pairs| then 0 else freq[t.elems + k] + JoinCost(t, freq, k + 1)
  }

  lemma LeastOfRoots(t: Shape, freq: seq<nat>, k: nat, a: nat, b: nat, x: nat)
    requires Huffman(t, freq) && k < |t.pairs| && (a, b) == t.pairs[k] && x in Roots(t, k)
    ensures a < |freq| && b < |freq| && freq[a] <= freq[b] && x < |freq| && freq[a] <= freq[x]
    ensures x != a ==> freq[b] <= freq[x]
  {
    RootsStep(t, k, a, b);
    assert Least(t, freq, k);
    assert Waiting(t, k, x);
  }

  /** The two nodes that give their codes to the least frequent two are nodes without a father, with longer codes. */
  ghost predicate Givers(l: seq<nat>, s: set<nat>, a: nat, b: nat, p: nat, q: nat) {
    && a < |l| && b < |l| && p < |l| && q < |l| && p in s && q in s && q != a
    && l[a] <= l[p] && Swap(l, a, p)[b] <= Swap(l, a, p)[q]
  }

  /** The least frequent two can be given the longest codes, those of `p` and `q`. */
  lemma LongestToLeast(t: Shape, freq: seq<nat>, k: nat, l: seq<nat>, m: nat, a: nat, b: nat)
    returns (r: seq<nat>, p: nat, q: nat)
    requires Huffman(t, freq) && k < |t.pairs| && (a, b) == t.pairs[k] && |l| == t.Size() && Fits(l, m, Roots(t, k))
    ensures Givers(l, Roots(t, k), a, b, p, q) && r == Swap(Swap(l, a, p), b, q)
    ensures Fits(Swap(l, a, p), m, Roots(t, k))
    ensures SumIn(Uses(freq, Swap(l, a, p)), Roots(t, k)) <= SumIn(Uses(freq, l), Roots(t, k))
    ensures |r| == |l| && Fits(r, m, Roots(t, k))
    ensures SumIn(Uses(freq, r), Roots(t, k)) <= SumIn(Uses(freq, l), Roots(t, k))
    ensures a < |r| && b < |r| && r[b] <= r[a] && forall x :: x in Roots(t, k) && x != a ==> x < |r| && r[x] <= r[b]
  {
    hide Huffman, SumIn, Pow2, Least;
    var s := Roots(t, k);
    RootsOf(t, freq, k, a, b);
    p := LongestIn(l, s, a);
    LeastOfRoots(t, freq, k, a, b, p);
    Exchange(freq, l, m, s, a, p);
    var l1 := Swap(l, a, p);
    q := LongestIn(l1, s - {a}, b);
    LeastOfRoots(t, freq, k, a, b, q);
    Exchange(freq, l1, m, s, b, q);
    r := Swap(l1, b, q);
    forall x | x in s && x != a
      ensures x < |r| && r[x] <= r[b]
    {
    }
  }

  lemma RootsOf(t: Shape, freq: seq<nat>, k: nat, a: nat, b: nat)
    requires Huffman(t, freq) && k < |t.pairs| && (a, b) == t.pairs[k]
    ensures a in Roots(t, k) && b in Roots(t, k) && a != b && t.elems + k !in Roots(t, k)
    ensures Roots(t, k + 1) == Roots(t, k) - {a} - {b} + {t.elems + k} && t.Size() <= |freq|
    ensures forall x :: x in Roots(t, k) ==> x < t.elems + k
    ensures t.elems + k < t.Size() && freq[t.elems + k] == freq[a] + freq[b]
  {
    RootsStep(t, k, a, b);
    assert SumExact(t, freq, k);
  }

  lemma JoinedUses(fa: int, fb: int, la: int, lb: int)
    requires fa >= 0 && lb <= la
    ensures fa * la + fb * lb >= (fa + fb) * (lb - 1) + (fa + fb)
  {
    MulMonotone(fa, lb, la);
  }

  /** From lengths for the nodes before a join to lengths for those after it. */
  lemma JoinLengths(t: Shape, freq: seq<nat>, k: nat, l: seq<nat>, m: nat) returns (r: seq<nat>, p: nat, q: nat)
    requires Huffman(t, freq) && k < |t.pairs| && |l| == t.Size() && Fits(l, m, Roots(t, k))
    ensures |r| == |l| && Fits(r, m, Roots(t, k + 1))
    ensures var (a, b) := t.pairs[k];
      && Givers(l, Roots(t, k), a, b, p, q) && Fits(Swap(l, a, p), m, Roots(t, k))
      && SumIn(Uses(freq, Swap(l, a, p)), Roots(t, k)) <= SumIn(Uses(freq, l), Roots(t, k))
      && var l2 := Swap(Swap(l, a, p), b, q);
         1 <= l2[b] <= l2[a] && r == l2[t.elems + k := l2[b] - 1]
    ensures SumIn(Uses(freq, l), Roots(t, k)) >= SumIn(Uses(freq, r), Roots(t, k + 1)) + freq[t.elems + k]
  {
    hide Huffman, SumIn, Pow2;
    var (a, b) := t.pairs[k];
    var s, node := Roots(t, k), t.elems + k;
    RootsOf(t, freq, k, a, b);
    var l2;
    l2, p, q := LongestToLeast(t, freq, k, l, m, a, b);
    RoomForBoth(l2, m, s, a, b);
    var rest, d := s - {a} - {b}, l2[b] - 1;
    r := l2[node := d];
    SumInsert(Shares(r, m), rest, node);
    SumSame(Shares(l2, m), Shares(r, m), rest);
    DoubleShare(m, l2[b]);
    SumOfTwo(Uses(freq, l2), s, a, b);
    SumInsert(Uses(freq, r), rest, node);
    SumSame(Uses(freq, l2), Uses(freq, r), rest);
    JoinedUses(freq[a], freq[b], l2[a], l2[b]);
  }

  lemma DoubleShare(m: nat, d: nat)
    requires 1 <= d <= m
    ensures Pow2(m - (d - 1)) == 2 * Pow2(m - d)
  {
  }

  /** No code takes less than what the joins add up to. */
  lemma {:induction false} HuffmanBound(t: Shape, freq: seq<nat>, k: nat, l: seq<nat>, m: nat)
    requires Huffman(t, freq) && k <= |t.pairs| && |l| == t.Size() && Fits(l, m, Roots(t, k))
    ensures SumIn(Uses(freq, l), Roots(t, k)) >= JoinCost(t, freq, k)
    decreases |t.pairs| - k
  {
    hide Least, SumExact, ValidShape, Fits, SumIn;
    if k == |t.pairs| {
      UsesNotNegative(freq, l, Roots(t, k));
    } else {
      var r, p, q := JoinLengths(t, freq, k, l, m);
      HuffmanBound(t, freq, k + 1, r, m);
    }
  }

  lemma UsesNotNegative(freq: seq<nat>, l: seq<nat>, s: set<nat>)
    requires |l| <= |freq|
    ensures SumIn(Uses(freq, l), s) >= 0
  {
    var v := Uses(freq, l);
    forall x | 0 <= x < |v|
      ensures v[x] >= 0
    {
      MulPositive(freq[x], l[x]);
    }
    SumToNotNegative(v, s, |v|);
  }

  // ---------- the tree's own code ----------

  /** Every son is one level below its father. */
  ghost predicate Depths(t: Shape, c: seq<nat>) {
    && |c| == t.Size() && |t.pairs| > 0 && c[t.Root()] == 0
    && forall k :: 0 <= k < |t.pairs| ==> OneBelow(t, c, k)
  }

  ghost predicate OneBelow(t: Shape, c: seq<nat>, k: nat)
    requires |c| == t.Size() && k < |t.pairs|
  {
    var (a, b) := t.pairs[k];
    a < |c| && b < |c| && c[a] == c[b] == c[t.elems + k] + 1
  }

  lemma OneBitMore(fa: int, fb: int, d: int)
    ensures fa * (d + 1) + fb * (d + 1) == (fa + fb) * d + (fa + fb)
  {
  }

  /** The tree's own code takes exactly what the joins add up to. */
  lemma {:induction false} TreeUses(t: Shape, freq: seq<nat>, c: seq<nat>, k: nat)
    requires Huffman(t, freq) && Depths(t, c) && k <= |t.pairs|
    ensures SumIn(Uses(freq, c), Roots(t, k)) == JoinCost(t, freq, k)
    decreases |t.pairs| - k
  {
    hide Least, SumExact, ValidShape, SumIn;
    var v := Uses(freq, c);
    if k == |t.pairs| {
      RootsEnd(t);
      SumInsert(v, {}, t.Root());
      assert {} + {t.Root() as nat} == {t.Root() as nat};
      SumInNone(v);
    } else {
      var (a, b) := t.pairs[k];
      var s, node := Roots(t, k), t.elems + k;
      RootsOf(t, freq, k, a, b);
      assert OneBelow(t, c, k);
      TreeUses(t, freq, c, k + 1);
      SumOfTwo(v, s, a, b);
      SumInsert(v, s - {a} - {b}, node);
      OneBitMore(freq[a], freq[b], c[node]);
    }
  }

  lemma SumInNone(v: seq<int>)
    ensures SumIn(v, {}) == 0
  {
    SumToEmpty(v, |v|);
  }

  /** Huffman's theorem: no lengths that leave room for a code of the leaves take less. */
  lemma TreeIsLeast(t: Shape, freq: seq<nat>, c: seq<nat>, l: seq<nat>, m: nat)
    requires Huffman(t, freq) && Depths(t, c) && |l| == t.Size() && Fits(l, m, t.leaves)
    ensures SumIn(Uses(freq, c), t.leaves) <= SumIn(Uses(freq, l), t.leaves)
  {
    RootsStart(t);
    TreeUses(t, freq, c, 0);
    HuffmanBound(t, freq, 0, l, m);
  }

  lemma {:induction false} BoundOf(c: seq<nat>) returns (m: nat)
    ensures forall x :: 0 <= x < |c| ==> c[x] < m
  {
    m := 1;
    if c != [] {
      var front := c[..|c| - 1];
      m := BoundOf(front);
      assert forall x :: 0 <= x < |front| ==> front[x] == c[x];
      m := Max(m, c[|c| - 1] + 1);
    }
  }

  /** The tree's own code uses all of the room. */
  lemma TreeFits(t: Shape, c: seq<nat>, m: nat)
    requires ValidShape(t) && Depths(t, c) && forall x :: 0 <= x < |c| ==> c[x] < m
    ensures Fits(c, m, t.leaves)
  {
    hide ValidShape, Joins;
    forall k | 0 <= k < |t.pairs|
      ensures SonsBelow(t, c, m, k)
    {
      assert OneBelow(t, c, k);
    }
    SumToBounds(At(c, m), Made(t.elems, |t.pairs|), |c|, 0, 0);
    LeafShares(t, c, m);
    LeavesAreNodes(t);
  }

  lemma LeavesAreNodes(t: Shape)
    requires ValidShape(t)
    ensures forall x :: x in t.leaves ==> x < t.elems
  {
  }

  /** A rarer symbol is never nearer to the root. */
  lemma RarerIsLower(t: Shape, freq: seq<nat>, c: seq<nat>, x: nat, y: nat)
    requires Huffman(t, freq) && Depths(t, c) && x in t.leaves && y in t.leaves && x < |c| && y < |c|
    requires freq[x] < freq[y]
    ensures c[x] >= c[y]
  {
    hide Depths, SumIn;
    if c[x] < c[y] {
      var m := BoundOf(c);
      var s, r := t.leaves, Swap(c, x, y);
      TreeFits(t, c, m);
      DepthsSize(t, c);
      Exchange(freq, c, m, s, x, y);
      TreeIsLeast(t, freq, c, r, m);
      SumOfTwo(Uses(freq, c), s, x, y);
      SumOfTwo(Uses(freq, r), s, x, y);
      SumSame(Uses(freq, c), Uses(freq, r), s - {x} - {y});
      StrictlyLess(freq[x], freq[y], c[x], c[y]);
      assert false;
    }
  }

  lemma DepthsSize(t: Shape, c: seq<nat>)
    requires Depths(t, c)
    ensures |c| == t.Size()
  {
  }

  lemma StrictlyLess(fx: int, fy: int, lx: int, ly: int)
    requires fx < fy && lx < ly
    ensures fx * ly + fy * lx < fx * lx + fy * ly
  {
    MulMonotone(fy - fx, 1, ly - lx);
    assert (fy - fx) * (ly - lx) == fy * ly - fy * lx - fx * ly + fx * lx;
  }

  // ---------- no sum is cut ----------

  lemma {:induction false} SumToMember(v: seq<int>, s: set<nat>, a: nat, b: nat)
    requires a in s && b in s && a != b && a < |v| && b < |v| && forall x :: 0 <= x < |v| ==> v[x] >= 0
    ensures v[a] + v[b] <= SumIn(v, s)
  {
    SumOfTwo(v, s, a, b);
    SumToNotNegative(v, s - {a} - {b}, |v|);
  }

  /** If the leaves together are used less than 2^16 times, so is every node, and the joins keep the sum. */
  lemma {:induction false} SumsExact(t: Shape, freq: seq<nat>, k: nat)
    requires ValidShape(t) && Greedy(t, freq) && t.Size() <= |freq| && k <= |t.pairs|
    requires SumIn(freq, t.leaves) < 0x1_0000
    ensures SumIn(freq, Roots(t, k)) == SumIn(freq, t.leaves)
    ensures forall j :: 0 <= j < k ==> SumExact(t, freq, j)
  {
    hide ValidShape, SumIn;
    if k == 0 {
      RootsStart(t);
    } else {
      SumsExact(t, freq, k - 1);
      var (a, b) := t.pairs[k - 1];
      var s, node := Roots(t, k - 1), t.elems + (k - 1);
      RootsStep(t, k - 1, a, b);
      assert Least(t, freq, k - 1) && Sum16(t, freq, k - 1);
      SumToMember(freq, s, a, b);
      SumOfTwo(freq, s, a, b);
      SumInsert(freq, s - {a} - {b}, node);
    }
  }

  lemma IsHuffman(t: Shape, freq: seq<nat>)
    requires ValidShape(t) && Greedy(t, freq) && t.Size() <= |freq| && SumIn(freq, t.leaves) < 0x1_0000
    ensures Huffman(t, freq)
  {
    hide ValidShape, SumIn, SumExact, Least, Sum16;
    SumsExact(t, freq, |t.pairs|);
  }
}
