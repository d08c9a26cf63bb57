/**
  What the depth of the nodes is for in building a tree (trees.c): of all codes that take the least, the tree's own has
  the least longest code.
 */
module HuffmanHeight {
  import opened Arithmetic
  import opened HuffmanOptimal
  import opened HuffmanTree
  import opened Sums
  import opened TreeBuild
  import opened TreeHeap

  // ---------- depths do not wrap ----------

  /** Leaves have height 0, every other node is one higher than the higher of its sons. */
  ghost predicate Heights(t: Shape, d: seq<nat>) {
    && t.Size() <= |d| && (forall x :: x in t.leaves ==> x < |d| && d[x] == 0)
    && forall k :: 0 <= k < |t.pairs| ==> OneAbove(t, d, k)
  }

  ghost predicate OneAbove(t: Shape, d: seq<nat>, k: nat)
    requires k < |t.pairs| && t.Size() <= |d|
  {
    var (a, b) := t.pairs[k];
    a < |d| && b < |d| && d[t.elems + k] == Max(d[a], d[b]) + 1
  }

  /** Node `x` is a leaf or was made by a join. */
  ghost predicate Node(t: Shape, x: nat) {
    x in t.leaves || t.elems <= x < t.Size()
  }

  lemma SonsOfJoin(t: Shape, k: nat)
    requires ValidShape(t) && k < |t.pairs|
    ensures var (a, b) := t.pairs[k];
      && Node(t, a) && Node(t, b) && a < t.elems + k && b < t.elems + k
      && a !in Sons(t.pairs, k) && b !in Sons(t.pairs, k) && a in Sons(t.pairs, k + 1) && b in Sons(t.pairs, k + 1)
  {
    var (a, b) := t.pairs[k];
    assert Joins(t, k);
    SonsGrow(t.pairs, k + 1, |t.pairs|);
    assert a in Sons(t.pairs, |t.pairs|) && b in Sons(t.pairs, |t.pairs|);
  }

  /** What has no father after a join is at least as frequent as the nodes that were joined. */
  lemma {:induction false} LaterIsMore(t: Shape, freq: seq<nat>, j: nat, w: nat)
    requires Huffman(t, freq) && j < |t.pairs| && Node(t, w) && w !in Sons(t.pairs, j + 1)
    ensures w < |freq| && t.pairs[j].1 < |freq| && t.pairs[j].0 < |freq|
    ensures freq[t.pairs[j].0] <= freq[t.pairs[j].1] <= freq[w]
    decreases w
  {
    hide Roots;
    var (a, b) := t.pairs[j];
    SonsOfJoin(t, j);
    SonsGrow(t.pairs, j, j + 1);
    assert Least(t, freq, j) && SumExact(t, freq, j);
    if w in t.leaves || w < t.elems + j {
      assert Waiting(t, j, w);
    } else if w > t.elems + j {
      var i: nat := w - t.elems;
      SonsOfJoin(t, i);
      SonsGrow(t.pairs, j + 1, i);
      LaterIsMore(t, freq, j, t.pairs[i].0);
      assert SumExact(t, freq, i);
    }
  }

  lemma Doubled(d: nat)
    ensures Pow2((d + 2) / 2) == 2 * Pow2(d / 2)
  {
  }

  /** The deeper of two nodes. */
  function DeeperOf(d: seq<nat>, a: nat, b: nat): nat
    requires a < |d| && b < |d|
  {
    if d[a] >= d[b] then a else b
  }

  lemma RankedOne(t: Shape, freq: seq<nat>, d: seq<nat>, k: nat)
    requires ValidShape(t) && Ranked(t, freq, d) && k < |t.pairs|
    ensures var (a, b) := t.pairs[k];
      && a < |d| && b < |d| && t.elems + k < |d| && d[t.elems + k] == (Max(d[a], d[b]) + 1) % 0x100
  {
    assert Foremost(t, freq, d, k);
  }

  /** Each two levels of depth double the least frequency. */
  lemma {:induction false} DepthWeight(t: Shape, freq: seq<nat>, d: seq<nat>, x: nat)
    requires Huffman(t, freq) && Ranked(t, freq, d) && Node(t, x)
    requires forall y :: y in t.leaves ==> y < |freq| && freq[y] >= 1
    ensures x < |freq| && x < |d| && freq[x] >= Pow2(d[x] / 2) && d[x] < 0x100
    decreases x
  {
    hide Huffman, Ranked, Least, Pow2, ValidShape;
    IsTree(t, freq);
    if x < t.elems {
      LeafDepth(t, freq, d, x);
      SmallestPowers();
    } else {
      var k: nat := x - t.elems;
      var (a, b) := t.pairs[k];
      SonsOfJoin(t, k);
      RankedOne(t, freq, d, k);
      DepthWeight(t, freq, d, a);
      DepthWeight(t, freq, d, b);
      SumIsExact(t, freq, k);
      var u := DeeperOf(d, a, b);
      SmallestPowers();
      if 0 < d[u] && d[u] + 1 < 0x100 {
        GrandSon(t, freq, d, k, u, a + b - u);
      }
    }
  }

  lemma IsTree(t: Shape, freq: seq<nat>)
    requires Huffman(t, freq)
    ensures ValidShape(t) && t.Size() <= |freq|
  {
  }

  lemma LeafDepth(t: Shape, freq: seq<nat>, d: seq<nat>, x: nat)
    requires Ranked(t, freq, d) && x in t.leaves
    ensures x < |d| && d[x] == 0
  {
  }

  lemma SumIsExact(t: Shape, freq: seq<nat>, k: nat)
    requires Huffman(t, freq) && k < |t.pairs|
    ensures SumExact(t, freq, k)
  {
  }

  /** A node two levels above another is at least twice as frequent. */
  lemma GrandSon(t: Shape, freq: seq<nat>, d: seq<nat>, k: nat, u: nat, w: nat)
    requires Huffman(t, freq) && Ranked(t, freq, d) && k < |t.pairs|
    requires forall y :: y in t.leaves ==> y < |freq| && freq[y] >= 1
    requires t.pairs[k] == (u, w) || t.pairs[k] == (w, u)
    requires u < |d| && w < |d| && d[w] <= d[u] && 0 < d[u] < 0xff
    ensures t.elems + k < |freq| && freq[t.elems + k] >= Pow2((d[u] + 1) / 2)
    decreases t.elems + k, 0
  {
    hide Huffman, Ranked, Least, Pow2, ValidShape;
    IsTree(t, freq);
    SonsOfJoin(t, k);
    if u < t.elems {
      LeafDepth(t, freq, d, u);
      assert false;
    }
    var j: nat := u - t.elems;
    var (c, e) := t.pairs[j];
    SonsOfJoin(t, j);
    RankedOne(t, freq, d, j);
    var g := DeeperOf(d, c, e);
    DepthWeight(t, freq, d, c);
    DepthWeight(t, freq, d, e);
    SonsGrow(t.pairs, j + 1, k);
    LaterIsMore(t, freq, j, w);
    SumIsExact(t, freq, j);
    SumIsExact(t, freq, k);
    Doubled(d[g]);
  }

  /** No node is used more than the leaves together. */
  lemma NodeAtMost(t: Shape, freq: seq<nat>, x: nat)
    requires ValidShape(t) && Greedy(t, freq) && t.Size() <= |freq| && SumIn(freq, t.leaves) < 0x1_0000 && Node(t, x)
    ensures x < |freq| && freq[x] < 0x1_0000
  {
    hide ValidShape, SumIn, Greedy, SumExact;
    LeavesAreNodes(t);
    if x < t.elems {
      InSum(freq, t.leaves, x);
    } else {
      var k: nat := x - t.elems;
      var (a, b) := t.pairs[k];
      SumsExact(t, freq, k + 1);
      RootsStep(t, k, a, b);
      InSum(freq, Roots(t, k + 1), x);
    }
  }

  lemma InSum(freq: seq<nat>, s: set<nat>, x: nat)
    requires x in s && x < |freq|
    ensures freq[x] <= SumIn(freq, s)
  {
    SumInsert(freq, s - {x}, x);
    assert s - {x} + {x} == s;
    SumToNotNegative(freq, s - {x}, |freq|);
  }

  /** So the depths in 8 bits are the heights of the nodes. */
  lemma DepthsAreHeights(t: Shape, freq: seq<nat>, d: seq<nat>)
    requires ValidShape(t) && Greedy(t, freq) && t.Size() <= |freq| && SumIn(freq, t.leaves) < 0x1_0000
    requires Ranked(t, freq, d) && t.Size() <= |d| && forall y :: y in t.leaves ==> y < |freq| && freq[y] >= 1
    ensures Heights(t, d)
  {
    hide ValidShape, SumIn, Greedy, Huffman, Ranked, Pow2;
    IsHuffman(t, freq);
    forall k: nat | k < |t.pairs|
      ensures OneAbove(t, d, k)
    {
      SonsOfJoin(t, k);
      RankedOne(t, freq, d, k);
      SmallDepth(t, freq, d, t.pairs[k].0);
      SmallDepth(t, freq, d, t.pairs[k].1);
    }
    forall x | x in t.leaves
      ensures x < |d| && d[x] == 0
    {
      LeafDepth(t, freq, d, x);
    }
  }

  lemma SmallDepth(t: Shape, freq: seq<nat>, d: seq<nat>, x: nat)
    requires ValidShape(t) && Greedy(t, freq) && t.Size() <= |freq| && SumIn(freq, t.leaves) < 0x1_0000
    requires Ranked(t, freq, d) && Node(t, x) && forall y :: y in t.leaves ==> y < |freq| && freq[y] >= 1
    ensures x < |d| && d[x] < 32
  {
    hide ValidShape, SumIn, Greedy, Huffman, Ranked, Pow2;
    IsHuffman(t, freq);
    NodeAtMost(t, freq, x);
    DepthWeight(t, freq, d, x);
    if d[x] >= 32 {
      Pow2Monotone(16, d[x] / 2);
      Power16();
      assert false;
    }
  }

  lemma Power16()
    ensures Pow2(16) == 0x1_0000
  {
    assert Pow2(8) == 0x100;
    Pow2Add(8, 8);
  }

  // ---------- the least height ----------

  /** With these lengths no leaf below the nodes in `s` is further down than `h`. */
  ghost predicate Within(l: seq<nat>, d: seq<nat>, s: set<nat>, h: nat) {
    forall x :: x in s ==> x < |l| && x < |d| && l[x] + d[x] <= h
  }

  /** In a least code, giving the longer codeword to the node that comes first leaves the height as it is. */
  lemma SwapWithin(freq: seq<nat>, d: seq<nat>, l: seq<nat>, m: nat, s: set<nat>, x: nat, y: nat, h: nat)
    requires |l| <= |freq| && x in s && y in s && x < |l| && y < |l| && x < |d| && y < |d|
    requires Smaller(freq, d, x, y) && l[x] <= l[y] && Within(l, d, s, h)
    requires SumIn(Uses(freq, l), s) <= SumIn(Uses(freq, Swap(l, x, y)), s)
    ensures Within(Swap(l, x, y), d, s, h)
  {
    hide SumIn;
    if freq[x] < freq[y] && l[x] < l[y] {
      var r := Swap(l, x, y);
      SumOfTwo(Uses(freq, l), s, x, y);
      SumOfTwo(Uses(freq, r), s, x, y);
      SumSame(Uses(freq, l), Uses(freq, r), s - {x} - {y});
      StrictlyLess(freq[x], freq[y], l[x], l[y]);
      assert false;
    }
  }

  /** A least code for the nodes before a join. */
  ghost predicate LeastCode(t: Shape, freq: seq<nat>, k: nat, l: seq<nat>, m: nat)
    requires k <= |t.pairs| && t.Size() <= |freq|
  {
    |l| == t.Size() && Fits(l, m, Roots(t, k)) && SumIn(Uses(freq, l), Roots(t, k)) <= JoinCost(t, freq, k)
  }

  lemma ForemostOfRoots(t: Shape, freq: seq<nat>, d: seq<nat>, k: nat, x: nat)
    requires Huffman(t, freq) && Ranked(t, freq, d) && k < |t.pairs| && x in Roots(t, k) && t.Size() <= |d|
    ensures var (a, b) := t.pairs[k];
      && a < |freq| && b < |freq| && a < |d| && b < |d| && x < |freq| && x < |d|
      && Smaller(freq, d, a, x) && (x != a ==> Smaller(freq, d, b, x))
  {
    var (a, b) := t.pairs[k];
    RootsStep(t, k, a, b);
    assert Foremost(t, freq, d, k);
    assert Waiting(t, k, x);
  }

  lemma {:induction false} JoinWithin(t: Shape, freq: seq<nat>, d: seq<nat>, k: nat, l: seq<nat>, m: nat, h: nat)
      returns (r: seq<nat>)
    requires Huffman(t, freq) && Ranked(t, freq, d) && Heights(t, d) && k < |t.pairs|
    requires t.Size() <= |freq| && LeastCode(t, freq, k, l, m) && Within(l, d, Roots(t, k), h)
    ensures LeastCode(t, freq, k + 1, r, m) && Within(r, d, Roots(t, k + 1), h)
  {
    hide Huffman, SumIn, Ranked, Smaller, Roots, Fits;
    var (a, b) := t.pairs[k];
    var s, node := Roots(t, k), t.elems + k;
    var p, q;
    r, p, q := JoinLengths(t, freq, k, l, m);
    RootsOf(t, freq, k, a, b);
    var l1 := Swap(l, a, p);
    ForemostOfRoots(t, freq, d, k, p);
    ForemostOfRoots(t, freq, d, k, q);
    HuffmanBound(t, freq, k, l1, m);
    SwapWithin(freq, d, l, m, s, a, p, h);
    var l2 := Swap(l1, b, q);
    Exchange(freq, l1, m, s, b, q);
    HuffmanBound(t, freq, k, l2, m);
    SwapWithin(freq, d, l1, m, s, b, q, h);
    assert OneAbove(t, d, k);
  }

  /** No least code is shorter everywhere than the tree is high. */
  lemma {:induction false} HeightBound(t: Shape, freq: seq<nat>, d: seq<nat>, k: nat, l: seq<nat>, m: nat, h: nat)
    requires Huffman(t, freq) && Ranked(t, freq, d) && Heights(t, d) && k <= |t.pairs|
    requires t.Size() <= |freq| && LeastCode(t, freq, k, l, m) && Within(l, d, Roots(t, k), h)
    ensures d[t.Root()] <= h
    decreases |t.pairs| - k
  {
    hide Ranked, LeastCode, Roots, Least, SumExact;
    if k == |t.pairs| {
      RootsEnd(t);
      assert t.Root() as nat in Roots(t, k);
    } else {
      var r := JoinWithin(t, freq, d, k, l, m, h);
      HeightBound(t, freq, d, k + 1, r, m, h);
    }
  }

  // ---------- levels and heights ----------

  /** A node's level and its height are together at most the height of the tree, wherever levels are cut. */
  lemma {:induction false} LevelPlusHeight(t: Shape, lev: seq<nat>, d: seq<nat>, limit: nat, x: nat)
    requires ValidShape(t) && Levels(t, lev, limit) && Heights(t, d) && Node(t, x)
    ensures x < |lev| && x < |d| && lev[x] + d[x] <= d[t.Root()]
    decreases t.Size() - x
  {
    if x != t.Root() {
      assert x in Sons(t.pairs, |t.pairs|);
      var j := SonOf(t, x, |t.pairs|);
      SonsOfJoin(t, j);
      LevelPlusHeight(t, lev, d, limit, t.elems + j);
      assert SonsBelow(t, lev, limit, j) && OneAbove(t, d, j);
    }
  }

  /** If the tree is not too high, no level is cut. */
  lemma NotDeep(t: Shape, d: seq<nat>, limit: nat)
    requires ValidShape(t) && Heights(t, d) && d[t.Root()] <= limit
    ensures !Deep(t, limit)
  {
    hide ValidShape, Levels;
    if Deep(t, limit) {
      var lev: seq<nat>, k: nat :| Levels(t, lev, limit) && FullAt(t, lev, limit, k);
      FatherNotFull(t, lev, d, limit, k);
    }
  }

  lemma FatherNotFull(t: Shape, lev: seq<nat>, d: seq<nat>, limit: nat, k: nat)
    requires ValidShape(t) && Levels(t, lev, limit) && Heights(t, d) && d[t.Root()] <= limit && k < |t.pairs|
    ensures t.elems + k < |lev| && lev[t.elems + k] < limit
  {
    var (a, b) := t.pairs[k];
    LevelPlusHeight(t, lev, d, limit, t.elems + k);
    assert OneAbove(t, d, k);
    assert d[t.elems + k] >= d[a] + 1;
  }

  // ---------- the levels of a tree that is not cut ----------

  lemma {:induction false} LevelsFrom(t: Shape, k: nat) returns (c: seq<nat>)
    requires ValidShape(t) && k <= |t.pairs|
    ensures |c| == t.Size() && c[t.Root()] == 0 && forall j :: k <= j < |t.pairs| ==> OneBelow(t, c, j)
    decreases |t.pairs| - k
  {
    if k == |t.pairs| {
      c := seq(t.Size(), _ => 0);
    } else {
      var c' := LevelsFrom(t, k + 1);
      var (a, b) := t.pairs[k];
      SonsOfJoin(t, k);
      c := c'[a := c'[t.elems + k] + 1][b := c'[t.elems + k] + 1];
      forall j | k <= j < |t.pairs|
        ensures OneBelow(t, c, j)
      {
        SonsOfJoin(t, j);
        if j > k {
          SonsGrow(t.pairs, k + 1, j);
          assert OneBelow(t, c', j);
        }
      }
    }
  }

  lemma DepthsExist(t: Shape) returns (c: seq<nat>)
    requires ValidShape(t)
    ensures Depths(t, c)
  {
    hide ValidShape, OneBelow;
    c := LevelsFrom(t, 0);
    IsNotEmpty(t);
  }

  lemma IsNotEmpty(t: Shape)
    requires ValidShape(t)
    ensures |t.pairs| > 0
  {
  }
}
