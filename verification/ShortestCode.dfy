/**
  What the lengths of a built tree promise: no code takes less, if any such code obeys the limit, and the rarest symbols
  have the longest codes.
 */
module ShortestCode {
  import opened Arithmetic
  import opened HuffmanHeight
  import opened HuffmanOptimal
  import opened HuffmanTree
  import opened Sums
  import opened TreeBuild

  /** How often the first `n` symbols are used together. */
  function TotalUses(freq: seq<nat>, n: nat): nat
    requires n <= |freq|
  {
    if n == 0 then 0 else TotalUses(freq, n - 1) + freq[n - 1]
  }

  lemma {:induction false} TotalIsSum(freq: seq<nat>, freq': seq<nat>, used: set<nat>, n: nat)
    requires n <= |freq| && n <= |freq'| && forall x :: 0 <= x < n ==> freq'[x] == freq[x]
    requires forall x :: 0 <= x < n && x !in used ==> freq[x] == 0
    ensures SumTo(freq', used, n) == TotalUses(freq, n)
  {
    if n > 0 {
      TotalIsSum(freq, freq', used, n - 1);
    }
  }

  /** Lengths with which a code can be made: one bit at least for every used symbol, and Kraft's inequality. */
  ghost predicate Possible(lens: seq<nat>, m: nat, used: set<nat>) {
    Fits(lens, m, used) && forall x :: x in used ==> lens[x] >= 1
  }

  /** No code for the used symbols takes less, however long its codewords may be. */
  ghost predicate Optimal(stat: StaticDesc, freq: seq<nat>, lens: seq<nat>)
    requires |lens| == stat.elems <= |freq|
  {
    forall other: seq<nat>, m: nat :: |other| == stat.elems && Possible(other, m, Used(freq, stat.elems)) ==>
      Cost(stat, freq, lens, stat.elems) <= Cost(stat, freq, other, stat.elems)
  }

  /** Some of the codes that take the least have no codeword longer than the limit. */
  ghost predicate Attainable(stat: StaticDesc, freq: seq<nat>)
    requires stat.elems <= |freq|
  {
    exists other: seq<nat>, m: nat :: |other| == stat.elems && Possible(other, m, Used(freq, stat.elems))
        && UpTo(other, stat.limit, Used(freq, stat.elems)) && Optimal(stat, freq, other)
  }

  predicate UpTo(lens: seq<nat>, limit: nat, used: set<nat>) {
    forall x :: x in used ==> x < |lens| && lens[x] <= limit
  }

  /** A rarer symbol never has a shorter code. */
  ghost predicate RarestLongest(freq: seq<nat>, lens: seq<nat>, n: nat)
    requires n <= |freq| && n <= |lens|
  {
    forall x, y :: 0 <= x < n && 0 <= y < n && 0 < freq[x] < freq[y] ==> lens[x] >= lens[y]
  }

  // ---------- costs as sums ----------

  function NoLengths(n: nat): (l: seq<nat>)
    ensures |l| == n
  {
    seq(n, _ => 0)
  }

  /** The cost is what the codes take, and what the extra bits take whatever the codes are. */
  lemma {:induction false} CostIsUses(stat: StaticDesc, freq: seq<nat>, lens: seq<nat>, freq': seq<nat>, l: seq<nat>,
      used: set<nat>, n: nat)
    requires n <= |lens| && n <= |freq| && n <= |l| <= |freq'|
    requires forall x :: 0 <= x < n ==> l[x] == lens[x] && freq'[x] == freq[x]
    requires forall x :: 0 <= x < n && x !in used ==> freq[x] == 0
    ensures Cost(stat, freq, lens, n) == SumTo(Uses(freq', l), used, n) + Cost(stat, freq, NoLengths(n), n)
  {
    if n > 0 {
      CostIsUses(stat, freq, lens, freq', l, used, n - 1);
      CostPrefix(stat, freq, freq, NoLengths(n - 1), NoLengths(n), n - 1);
      var x := n - 1;
      assert freq[x] * (lens[x] + stat.Extra(x)) == freq[x] * lens[x] + freq[x] * stat.Extra(x);
    }
  }

  lemma {:induction false} CostLess(stat: StaticDesc, freq: seq<nat>, lens: seq<nat>, lens': seq<nat>, n: nat)
    requires n <= |freq| && n <= |lens| && n <= |lens'|
    requires forall x :: 0 <= x < n && freq[x] > 0 ==> lens[x] <= lens'[x]
    ensures Cost(stat, freq, lens, n) <= Cost(stat, freq, lens', n)
  {
    if n > 0 {
      CostLess(stat, freq, lens, lens', n - 1);
      if freq[n - 1] > 0 {
        MulMonotone(freq[n - 1], lens[n - 1] + stat.Extra(n - 1), lens'[n - 1] + stat.Extra(n - 1));
      }
    }
  }

  // ---------- trees that are not cut ----------

  /** The symbols' lengths and no more for the inner nodes leave as much room. */
  lemma WithInner(lens: seq<nat>, m: nat, used: set<nat>, n: nat) returns (l: seq<nat>)
    requires Fits(lens, m, used)
    ensures |l| == |lens| + n && Fits(l, m, used) && forall x :: 0 <= x < |lens| ==> l[x] == lens[x]
  {
    l := lens + NoLengths(n);
    SumToBeyond(Shares(l, m), used, |lens|, |l|);
    SumToEqual(Shares(lens, m), Shares(l, m), used, |lens|);
  }

  /** A whole tree's levels are the lengths of an optimal code. */
  lemma TreeIsOptimal(t: Shape, stat: StaticDesc, nodes: seq<nat>, freq: seq<nat>, c: seq<nat>, lens: seq<nat>)
    requires Huffman(t, nodes) && Depths(t, c) && t.elems == stat.elems == |lens| <= |freq|
    requires t.leaves == Used(freq, stat.elems)
    requires forall x :: 0 <= x < t.elems ==> nodes[x] == freq[x] && lens[x] == c[x]
    ensures Optimal(stat, freq, lens)
  {
    hide Huffman, Depths, Fits, SumIn, Cost;
    var n, used := stat.elems, t.leaves;
    TreeSizes(t, nodes, c);
    forall other: seq<nat>, m: nat | |other| == n && Possible(other, m, used)
      ensures Cost(stat, freq, lens, n) <= Cost(stat, freq, other, n)
    {
      var l := WithInner(other, m, used, |t.pairs|);
      TreeIsLeast(t, nodes, c, l, m);
      CostIsUses(stat, freq, lens, nodes, c, used, n);
      CostIsUses(stat, freq, other, nodes, l, used, n);
      SumToBeyond(Uses(nodes, c), used, n, |c|);
      SumToBeyond(Uses(nodes, l), used, n, |l|);
      SumIs(Uses(nodes, c), used);
      SumIs(Uses(nodes, l), used);
    }
  }

  lemma SumIs(v: seq<int>, s: set<nat>)
    ensures SumIn(v, s) == SumTo(v, s, |v|)
  {
  }

  lemma TreeSizes(t: Shape, nodes: seq<nat>, c: seq<nat>)
    requires Huffman(t, nodes) && Depths(t, c)
    ensures |c| == t.Size() <= |nodes| && forall x :: x in t.leaves ==> x < t.elems
  {
  }

  // ---------- trees that are cut ----------

  /** The tree's own code, before any level is cut, as lengths of the symbols. */
  lemma OwnCode(t: Shape, n: nat) returns (c: seq<nat>, m: nat)
    requires ValidShape(t) && t.elems == n
    ensures Depths(t, c) && |c| == t.Size() && n <= |c| && Possible(c[..n], m, t.leaves)
  {
    hide ValidShape, SumIn;
    c := DepthsExist(t);
    m := BoundOf(c);
    TreeFits(t, c, m);
    DepthsSize(t, c);
    LeavesAreNodes(t);
    var own := c[..n];
    SumToBeyond(Shares(c, m), t.leaves, n, |c|);
    SumToEqual(Shares(own, m), Shares(c, m), t.leaves, n);
    SumIs(Shares(own, m), t.leaves);
    SumIs(Shares(c, m), t.leaves);
    forall x | x in t.leaves
      ensures own[x] >= 1
    {
      LeafBelow(t, c, x);
    }
  }

  lemma LeafBelow(t: Shape, c: seq<nat>, x: nat)
    requires ValidShape(t) && Depths(t, c) && x in t.leaves
    ensures x < |c| && c[x] >= 1
  {
    assert x in Sons(t.pairs, |t.pairs|);
    var j := SonOf(t, x, |t.pairs|);
    assert OneBelow(t, c, j);
  }

  /** A least code is a least code for the leaves of the tree. */
  lemma LeastForLeaves(t: Shape, stat: StaticDesc, nodes: seq<nat>, freq: seq<nat>, other: seq<nat>, m: nat)
      returns (l: seq<nat>)
    requires Huffman(t, nodes) && ValidShape(t) && t.elems == stat.elems == |other| <= |freq| && t.Size() <= |nodes|
    requires t.leaves == Used(freq, stat.elems) && forall x :: 0 <= x < t.elems ==> nodes[x] == freq[x]
    requires Possible(other, m, t.leaves) && Optimal(stat, freq, other)
    ensures LeastCode(t, nodes, 0, l, m) && forall x :: 0 <= x < t.elems ==> l[x] == other[x]
  {
    hide Huffman, Depths, Fits, SumIn, Cost, ValidShape;
    var n, used := stat.elems, t.leaves;
    var c, mc := OwnCode(t, n);
    TreeSizes(t, nodes, c);
    var own := c[..n];
    assert Cost(stat, freq, other, n) <= Cost(stat, freq, own, n);
    l := WithInner(other, m, used, |t.pairs|);
    CostIsUses(stat, freq, own, nodes, c, used, n);
    CostIsUses(stat, freq, other, nodes, l, used, n);
    SumToBeyond(Uses(nodes, c), used, n, |c|);
    SumToBeyond(Uses(nodes, l), used, n, |l|);
    SumIs(Uses(nodes, c), used);
    SumIs(Uses(nodes, l), used);
    RootsStart(t);
    TreeUses(t, nodes, c, 0);
  }

  /** If a least code obeys the limit, the tree does: nothing is cut. */
  lemma AttainableIsNotDeep(t: Shape, stat: StaticDesc, nodes: seq<nat>, freq: seq<nat>, depth: seq<nat>)
    requires Huffman(t, nodes) && ValidShape(t) && Ranked(t, nodes, depth) && Heights(t, depth)
    requires t.elems == stat.elems <= |freq| && t.Size() <= |nodes|
    requires t.leaves == Used(freq, stat.elems) && forall x :: 0 <= x < t.elems ==> nodes[x] == freq[x]
    requires Attainable(stat, freq)
    ensures !Deep(t, stat.limit)
  {
    hide Huffman, SumIn, ValidShape, Ranked, LeastCode, Possible, Optimal, Deep;
    var other: seq<nat>, m: nat :| |other| == stat.elems && Possible(other, m, Used(freq, stat.elems))
        && UpTo(other, stat.limit, Used(freq, stat.elems)) && Optimal(stat, freq, other);
    var l := LeastForLeaves(t, stat, nodes, freq, other, m);
    LeastSize(t, nodes, l, m);
    RootsStart(t);
    HeightBound(t, nodes, depth, 0, l, m, stat.limit);
    NotDeep(t, depth, stat.limit);
  }

  lemma LeastSize(t: Shape, freq: seq<nat>, l: seq<nat>, m: nat)
    requires t.Size() <= |freq| && LeastCode(t, freq, 0, l, m)
    ensures |l| == t.Size()
  {
  }

  /** With one or two symbols every code has one bit, and there are no shorter ones. */
  lemma OneBitIsOptimal(stat: StaticDesc, freq: seq<nat>, lens: seq<nat>)
    requires |lens| == stat.elems <= |freq| && forall x :: 0 <= x < stat.elems && freq[x] > 0 ==> lens[x] == 1
    ensures Optimal(stat, freq, lens)
  {
    var n := stat.elems;
    forall other: seq<nat>, m: nat | |other| == n && Possible(other, m, Used(freq, n))
      ensures Cost(stat, freq, lens, n) <= Cost(stat, freq, other, n)
    {
      forall x | 0 <= x < n && freq[x] > 0
        ensures lens[x] <= other[x]
      {
        assert x in Used(freq, n);
      }
      CostLess(stat, freq, lens, other, n);
    }
  }

  // ---------- the order of the lengths ----------

  /** What is joined later is not less frequent. */
  lemma {:induction false} JoinsInOrder(t: Shape, freq: seq<nat>, j: nat, k: nat)
    requires Huffman(t, freq) && j < k < |t.pairs|
    ensures t.pairs[j].1 < |freq| && t.pairs[k].0 < |freq| && freq[t.pairs[j].1] <= freq[t.pairs[k].0]
    decreases k
  {
    hide Huffman, Roots;
    var (a, b) := t.pairs[k - 1];
    var (a', b') := t.pairs[k];
    RootsOf(t, freq, k - 1, a, b);
    RootsOf(t, freq, k, a', b');
    LeastOfRoots(t, freq, k, a', b', a');
    LeastOfRoots(t, freq, k - 1, a, b, b);
    if a' != t.elems + (k - 1) {
      LeastOfRoots(t, freq, k - 1, a, b, a');
    }
    assert freq[b] <= freq[a'];
    if j < k - 1 {
      JoinsInOrder(t, freq, j, k - 1);
    }
  }

  /** So frequencies fall along the heap's end, where the nodes lie in the order in which they were joined. */
  lemma HeapInOrder(h: seq<nat>, t: Shape, freq: seq<nat>, q: nat, q': nat)
    requires Huffman(t, freq) && Sorted(h, t) && 572 - 2 * |t.pairs| < q < q' < 573
    ensures h[q] < |freq| && h[q'] < |freq| && freq[h[q']] <= freq[h[q]]
  {
    hide Huffman;
    var k, j := (572 - q) / 2, (572 - q') / 2;
    var (a, b) := t.pairs[k];
    RootsOf(t, freq, k, a, b);
    LeastOfRoots(t, freq, k, a, b, b);
    var (a', b') := t.pairs[j];
    RootsOf(t, freq, j, a', b');
    LeastOfRoots(t, freq, j, a', b', b');
    assert h[q] == a || h[q] == b;
    assert h[q'] == a' || h[q'] == b';
    if j < k {
      JoinsInOrder(t, freq, j, k);
    }
  }

  /** Where a leaf lies at the heap's end. */
  lemma LeafPlace(h: seq<nat>, t: Shape, x: nat) returns (q: nat)
    requires ValidShape(t) && Sorted(h, t) && x in t.leaves
    ensures 572 - 2 * |t.pairs| < q < 573 && h[q] == x
  {
    assert x in Sons(t.pairs, |t.pairs|);
    var j := SonOf(t, x, |t.pairs|);
    q := if x == t.pairs[j].0 then 572 - 2 * j else 571 - 2 * j;
  }

  /** Lengths that do not fall along the heap's end belong to ever rarer symbols. */
  lemma FallingIsRarest(h: seq<nat>, t: Shape, freq: seq<nat>, lens: seq<nat>, x: nat, y: nat)
    requires Huffman(t, freq) && Sorted(h, t) && x in t.leaves && y in t.leaves && x < |freq| && y < |freq|
    requires x < |lens| && y < |lens|
    requires freq[x] < freq[y]
    requires forall q, q' :: 572 - 2 * |t.pairs| < q < q' < 573 && h[q] in t.leaves && h[q'] in t.leaves ==>
               h[q] < |lens| && h[q'] < |lens| && lens[h[q]] <= lens[h[q']]
    ensures lens[x] >= lens[y]
  {
    var q := LeafPlace(h, t, x);
    var q' := LeafPlace(h, t, y);
    if q < q' {
      HeapInOrder(h, t, freq, q, q');
      assert false;
    }
  }
}
