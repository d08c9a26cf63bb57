/** The trees that zlib's trees.c builds, and what limiting their depth does to the code lengths. */
module HuffmanTree {
  import opened Arithmetic
  import opened Sums

  /**
    A binary tree over the symbols in `leaves`: internal node `elems + k` was made at step `k`
    from the two nodes of `pairs[k]`, and the last one is the root.
   */
  datatype Shape = Shape(elems: nat, leaves: set<nat>, pairs: seq<(nat, nat)>) {
    function Size(): nat {
      elems + |pairs|
    }

    function Root(): int {
      Size() - 1
    }
  }

  /** The nodes that have become sons in the first `k` steps. */
  function Sons(pairs: seq<(nat, nat)>, k: nat): set<nat>
    requires k <= |pairs|
  {
    if k == 0 then {} else Sons(pairs, k - 1) + {pairs[k - 1].0} + {pairs[k - 1].1}
  }

  /** The internal nodes made in the first `k` steps. */
  function Made(elems: nat, k: nat): (s: set<nat>)
    ensures forall x :: x in s <==> elems <= x < elems + k
  {
    if k == 0 then {} else Made(elems, k - 1) + {elems + k - 1}
  }

  /** Every step joins two nodes that have no father yet; in the end only the root has none. */
  ghost predicate ValidShape(t: Shape) {
    && |t.pairs| > 0
    && (forall x :: x in t.leaves ==> x < t.elems)
    && (forall k :: 0 <= k < |t.pairs| ==> Joins(t, k))
    && Sons(t.pairs, |t.pairs|) == t.leaves + Made(t.elems, |t.pairs| - 1)
  }

  ghost predicate Joins(t: Shape, k: nat)
    requires k < |t.pairs|
  {
    var (a, b) := t.pairs[k];
    && a != b && a < t.elems + k && b < t.elems + k
    && a !in Sons(t.pairs, k) && b !in Sons(t.pairs, k)
  }

  // ---------- growing a tree ----------

  /** The nodes made so far: `roots` have no father yet, the others became sons once. */
  ghost predicate Forest(t: Shape, roots: set<nat>) {
    && (forall x :: x in t.leaves ==> x < t.elems)
    && (forall k :: 0 <= k < |t.pairs| ==> Joins(t, k))
    && roots !! Sons(t.pairs, |t.pairs|)
    && roots + Sons(t.pairs, |t.pairs|) == t.leaves + Made(t.elems, |t.pairs|)
  }

  /** The tree after joining `a` and `b` under a new node. */
  function Grow(t: Shape, a: nat, b: nat): Shape {
    t.(pairs := t.pairs + [(a, b)])
  }

  lemma {:induction false} SonsPrefix(pairs: seq<(nat, nat)>, p: (nat, nat), k: nat)
    requires k <= |pairs|
    ensures Sons(pairs + [p], k) == Sons(pairs, k)
  {
    if k > 0 {
      SonsPrefix(pairs, p, k - 1);
    }
  }

  lemma JoinsGrow(t: Shape, a: nat, b: nat, k: nat)
    requires k < |t.pairs| && Joins(t, k)
    ensures Joins(Grow(t, a, b), k)
  {
    SonsPrefix(t.pairs, (a, b), k);
  }

  lemma JoinTwo(t: Shape, roots: set<nat>, a: nat, b: nat)
    requires Forest(t, roots) && a in roots && b in roots && a != b
    ensures Forest(Grow(t, a, b), roots - {a} - {b} + {t.Size()})
    ensures a < t.Size() && b < t.Size()
  {
    var n, t', roots' := |t.pairs|, Grow(t, a, b), roots - {a} - {b} + {t.Size()};
    assert a in t.leaves + Made(t.elems, n) && b in t.leaves + Made(t.elems, n);
    SonsPrefix(t.pairs, (a, b), n);
    forall k | 0 <= k < n + 1
      ensures Joins(t', k)
    {
      if k < n {
        JoinsGrow(t, a, b, k);
      }
    }
    assert Sons(t'.pairs, n + 1) == Sons(t.pairs, n) + {a} + {b};
    assert Made(t.elems, n + 1) == Made(t.elems, n) + {t.Size()};
    assert t.Size() !in roots + Sons(t.pairs, n);
    assert roots' + Sons(t'.pairs, n + 1) == roots + Sons(t.pairs, n) + {t.Size()};
  }

  /** When one root is left, it is the node made last and the tree is complete. */
  lemma OneRoot(t: Shape, roots: set<nat>)
    requires Forest(t, roots) && |roots| == 1 && |t.pairs| > 0 && t.Root() in roots
    ensures ValidShape(t)
  {
    var n := |t.pairs|;
    assert {t.Root() as nat} <= roots;
    assert |roots - {t.Root() as nat}| == 0;
    assert roots == {t.Root() as nat};
    assert Made(t.elems, n) == Made(t.elems, n - 1) + {t.Root() as nat};
    assert t.Root() !in Sons(t.pairs, n);
    forall x: nat
      ensures x in Sons(t.pairs, n) <==> x in t.leaves + Made(t.elems, n - 1)
    {
      assert x in roots + Sons(t.pairs, n) <==> x in t.leaves + Made(t.elems, n);
    }
  }

  /** Node `x` exists and has no father yet at step `k`. */
  ghost predicate Waiting(t: Shape, k: nat, x: nat)
    requires k <= |t.pairs|
  {
    (x in t.leaves || t.elems <= x < t.elems + k) && x !in Sons(t.pairs, k)
  }

  /** Step `k` joined two of the least frequent nodes that had no father yet. */
  ghost predicate Least(t: Shape, freq: seq<nat>, k: nat)
    requires k < |t.pairs|
  {
    var (a, b) := t.pairs[k];
    && a < |freq| && b < |freq| && freq[a] <= freq[b]
    && forall x :: 0 <= x < |freq| && Waiting(t, k, x) && x != a && x != b ==> freq[b] <= freq[x]
  }

  /** The new node counts its sons' uses, in 16 bits. */
  ghost predicate Sum16(t: Shape, freq: seq<nat>, k: nat)
    requires k < |t.pairs|
  {
    var (a, b) := t.pairs[k];
    a < |freq| && b < |freq| && t.elems + k < |freq| && freq[t.elems + k] == (freq[a] + freq[b]) % 0x1_0000
  }

  /** A tree built by joining two of the least frequent nodes over and over. */
  ghost predicate Greedy(t: Shape, freq: seq<nat>) {
    forall k :: 0 <= k < |t.pairs| ==> Least(t, freq, k) && Sum16(t, freq, k)
  }

  lemma GreedyKept(t: Shape, freq: seq<nat>, freq': seq<nat>, a: nat, b: nat, k: nat)
    requires k < |t.pairs| && Joins(t, k) && Least(t, freq, k) && Sum16(t, freq, k)
    requires forall x :: x in t.leaves ==> x < t.elems
    requires t.Size() < |freq| == |freq'| && forall x :: 0 <= x < t.Size() ==> freq'[x] == freq[x]
    ensures Least(Grow(t, a, b), freq', k) && Sum16(Grow(t, a, b), freq', k)
  {
    var t' := Grow(t, a, b);
    SonsPrefix(t.pairs, (a, b), k);
    assert t'.pairs[k] == t.pairs[k];
    forall x: nat | Waiting(t', k, x)
      ensures Waiting(t, k, x) && x < t.Size()
    {
    }
  }

  lemma GreedyGrow(t: Shape, roots: set<nat>, freq: seq<nat>, freq': seq<nat>, a: nat, b: nat)
    requires Forest(t, roots) && Greedy(t, freq) && a in roots && b in roots && a != b
    requires t.Size() < |freq| == |freq'| && a < |freq| && b < |freq|
    requires freq' == freq[t.Size() := (freq[a] + freq[b]) % 0x1_0000]
    requires forall x :: x in roots && x < |freq| ==> freq[a] <= freq[x]
    requires forall x :: x in roots && x < |freq| && x != a ==> freq[b] <= freq[x]
    ensures Greedy(Grow(t, a, b), freq')
  {
    var n, t' := |t.pairs|, Grow(t, a, b);
    forall k | 0 <= k < n
      ensures Least(t', freq', k) && Sum16(t', freq', k)
    {
      assert Joins(t, k) && Least(t, freq, k) && Sum16(t, freq, k);
      GreedyKept(t, freq, freq', a, b, k);
    }
    JoinTwo(t, roots, a, b);
    GreedyLast(t, roots, freq, freq', a, b);
  }

  /** The pair that is joined last is the least of what was waiting then. */
  lemma GreedyLast(t: Shape, roots: set<nat>, freq: seq<nat>, freq': seq<nat>, a: nat, b: nat)
    requires Forest(t, roots) && a in roots && b in roots && a != b
    requires t.Size() < |freq| == |freq'| && a < |freq| && b < |freq|
    requires freq' == freq[t.Size() := (freq[a] + freq[b]) % 0x1_0000]
    requires forall x :: x in roots && x < |freq| ==> freq[a] <= freq[x]
    requires forall x :: x in roots && x < |freq| && x != a ==> freq[b] <= freq[x]
    ensures Least(Grow(t, a, b), freq', |t.pairs|) && Sum16(Grow(t, a, b), freq', |t.pairs|)
  {
    var n, t' := |t.pairs|, Grow(t, a, b);
    SonsPrefix(t.pairs, (a, b), n);
    forall x: nat | Waiting(t', n, x)
      ensures x in roots && x < t.Size()
    {
      assert x in t.leaves + Made(t.elems, n);
    }
  }

  /** The levels of the nodes when no level may exceed `limit`. */
  ghost predicate Levels(t: Shape, c: seq<nat>, limit: nat) {
    && |c| == t.Size() && |t.pairs| > 0 && c[t.Root()] == 0
    && (forall x :: 0 <= x < |c| ==> c[x] <= limit)
    && (forall k :: 0 <= k < |t.pairs| ==> SonsBelow(t, c, limit, k))
  }

  ghost predicate SonsBelow(t: Shape, c: seq<nat>, limit: nat, k: nat)
    requires |c| == t.Size() && k < |t.pairs|
  {
    && t.pairs[k].0 < |c| && t.pairs[k].1 < |c|
    && c[t.pairs[k].0] == c[t.pairs[k].1] == Min(c[t.elems + k] + 1, limit)
  }

  /** The tree is deeper than the limit: with no level beyond it, some father is at the limit itself. */
  ghost predicate Deep(t: Shape, limit: nat) {
    exists lev: seq<nat>, k: nat :: Levels(t, lev, limit) && FullAt(t, lev, limit, k)
  }

  predicate FullAt(t: Shape, lev: seq<nat>, limit: nat, k: nat) {
    k < |t.pairs| && t.Size() <= |lev| && lev[t.elems + k] >= limit
  }

  // ---------- counting over all fathers ----------

  /**
    If the values of two sons always make up a value of their father plus `extra`,
    the same holds for all sons and all fathers together.
   */
  lemma {:induction false} SumOverSons(t: Shape, v: seq<int>, w: seq<int>, k: nat)
    requires k <= |t.pairs| && |v| == |w| == t.Size()
    requires forall j :: 0 <= j < k ==> Joins(t, j) && v[t.pairs[j].0] + v[t.pairs[j].1] == w[t.elems + j]
    ensures SumIn(v, Sons(t.pairs, k)) == SumIn(w, Made(t.elems, k))
  {
    hide SumTo;
    if k == 0 {
      SumToEmpty(v, |v|);
      SumToEmpty(w, |w|);
    } else {
      SumOverSons(t, v, w, k - 1);
      var (a, b) := t.pairs[k - 1];
      assert Joins(t, k - 1);
      SumInsert(v, Sons(t.pairs, k - 1), a);
      SumInsert(v, Sons(t.pairs, k - 1) + {a}, b);
      SumInsert(w, Made(t.elems, k - 1), t.elems + k - 1);
    }
  }

  // ---------- the consequences of limiting the levels ----------

  /** The share of the code space of each node, in units of the longest codes. */
  function Shares(c: seq<nat>, limit: nat): (v: seq<int>)
    requires forall x :: 0 <= x < |c| ==> c[x] <= limit
    ensures |v| == |c|
  {
    seq(|c|, x requires 0 <= x < |c| => Pow2(limit - c[x]))
  }

  /** Marks the nodes at one level. */
  function At(c: seq<nat>, level: nat): (v: seq<int>)
    ensures |v| == |c|
  {
    seq(|c|, x requires 0 <= x < |c| => if c[x] == level then 1 else 0)
  }

  function Plus(v: seq<int>, w: seq<int>): (u: seq<int>)
    requires |v| == |w|
    ensures |u| == |v|
  {
    seq(|v|, x requires 0 <= x < |v| => v[x] + w[x])
  }

  /** Marks the nodes whose level was cut because their father is at the limit. */
  ghost function Cut(t: Shape, dad: seq<nat>, c: seq<nat>, limit: nat): (v: seq<int>)
    requires |c| == t.Size() <= |dad|
    ensures |v| == |c|
  {
    seq(|c|, x requires 0 <= x < |c| => if x < t.Root() && dad[x] < |c| && c[dad[x]] == limit then 1 else 0)
  }

  /** The fathers that the build has recorded. */
  ghost predicate Fathers(t: Shape, dad: seq<nat>) {
    && t.Size() <= |dad|
    && forall k :: 0 <= k < |t.pairs| ==> FatherOf(t, dad, k)
  }

  ghost predicate FatherOf(t: Shape, dad: seq<nat>, k: nat)
    requires k < |t.pairs| && t.Size() <= |dad|
  {
    var (a, b) := t.pairs[k];
    a < t.Root() && b < t.Root() && dad[a] == t.elems + k && dad[b] == t.elems + k
  }

  lemma {:induction false} SonsGrow(pairs: seq<(nat, nat)>, j: nat, k: nat)
    requires j <= k <= |pairs|
    ensures Sons(pairs, j) <= Sons(pairs, k)
  {
    if j < k {
      SonsGrow(pairs, j, k - 1);
    }
  }

  lemma FathersGrow(t: Shape, roots: set<nat>, dad: seq<nat>, dad': seq<nat>, a: nat, b: nat)
    requires Forest(t, roots) && Fathers(t, dad) && a in roots && b in roots && a != b
    requires t.Size() < |dad| && a < |dad| && b < |dad|
    requires dad' == dad[a := t.Size()][b := t.Size()]
    ensures Fathers(Grow(t, a, b), dad')
  {
    var n, t' := |t.pairs|, Grow(t, a, b);
    JoinTwo(t, roots, a, b);
    forall k | 0 <= k < n + 1
      ensures FatherOf(t', dad', k)
    {
      if k < n {
        assert FatherOf(t, dad, k);
        SonsGrow(t.pairs, k + 1, n);
        assert t.pairs[k].0 in Sons(t.pairs, n) && t.pairs[k].1 in Sons(t.pairs, n);
      }
    }
  }

  lemma SonsAreNodes(t: Shape, k: nat)
    requires ValidShape(t) && k < |t.pairs|
    ensures t.pairs[k].0 in Sons(t.pairs, |t.pairs|) && t.pairs[k].1 in Sons(t.pairs, |t.pairs|)
    ensures t.pairs[k].0 < t.Root() && t.pairs[k].1 < t.Root()
  {
    SonsGrow(t.pairs, k + 1, |t.pairs|);
    assert Joins(t, k);
  }

  /** Leaves and sons: what all sons sum up to. */
  lemma SonsSum(t: Shape, v: seq<int>)
    requires ValidShape(t) && |v| == t.Size()
    ensures SumIn(v, Sons(t.pairs, |t.pairs|)) == SumIn(v, t.leaves) + SumIn(v, Made(t.elems, |t.pairs| - 1))
  {
    SumToUnion(v, t.leaves, Made(t.elems, |t.pairs| - 1), |v|);
  }

  /** How many fathers are at the limit. */
  ghost function FullFathers(t: Shape, c: seq<nat>, limit: nat): int
    requires |c| == t.Size()
  {
    SumIn(At(c, limit), Made(t.elems, |t.pairs|))
  }

  lemma SharesOfSons(t: Shape, c: seq<nat>, limit: nat, k: nat)
    requires ValidShape(t) && Levels(t, c, limit) && k < |t.pairs|
    ensures t.pairs[k].0 < t.Size() && t.pairs[k].1 < t.Size()
    ensures
      var v := Shares(c, limit);
      v[t.pairs[k].0] + v[t.pairs[k].1] == Plus(v, At(c, limit))[t.elems + k]
  {
    SonsAreNodes(t, k);
    assert SonsBelow(t, c, limit, k);
    assert Pow2(0) == 1;
  }

  /** The leaves take the whole code space, and one unit more for every father at the limit. */
  lemma LeafShares(t: Shape, c: seq<nat>, limit: nat)
    requires ValidShape(t) && Levels(t, c, limit)
    ensures SumIn(Shares(c, limit), t.leaves) == Pow2(limit) + FullFathers(t, c, limit)
  {
    hide SonsBelow, Joins, SumTo;
    var v, e, n := Shares(c, limit), At(c, limit), |t.pairs|;
    SharesOverSons(t, c, limit);
    SumToAdd(Plus(v, e), v, e, Made(t.elems, n), |v|);
    LeafAndInner(t, v);
  }

  lemma SharesOverSons(t: Shape, c: seq<nat>, limit: nat)
    requires ValidShape(t) && Levels(t, c, limit)
    ensures SumIn(Shares(c, limit), Sons(t.pairs, |t.pairs|))
            == SumIn(Plus(Shares(c, limit), At(c, limit)), Made(t.elems, |t.pairs|))
  {
    hide SonsBelow, SumTo, Sons, Pow2;
    var v, w, n := Shares(c, limit), Plus(Shares(c, limit), At(c, limit)), |t.pairs|;
    forall j | 0 <= j < n
      ensures Joins(t, j) && v[t.pairs[j].0] + v[t.pairs[j].1] == w[t.elems + j]
    {
      assert Joins(t, j);
      SharesOfSons(t, c, limit, j);
    }
    SumOverSons(t, v, w, n);
  }

  /** Two nodes are cut for every father at the limit. */
  lemma CutNodes(t: Shape, dad: seq<nat>, c: seq<nat>, limit: nat)
    requires ValidShape(t) && Levels(t, c, limit) && Fathers(t, dad)
    ensures SumIn(Cut(t, dad, c, limit), Sons(t.pairs, |t.pairs|)) == 2 * FullFathers(t, c, limit)
  {
    var v, e, n := Cut(t, dad, c, limit), At(c, limit), |t.pairs|;
    forall j | 0 <= j < n
      ensures Joins(t, j) && v[t.pairs[j].0] + v[t.pairs[j].1] == Plus(e, e)[t.elems + j]
    {
      assert Joins(t, j) && FatherOf(t, dad, j);
      SonsAreNodes(t, j);
    }
    SumOverSons(t, v, Plus(e, e), n);
    SumToAdd(Plus(e, e), e, e, Made(t.elems, n), |v|);
  }

  /** At least as many leaves are at the limit as there are fathers at the limit, and more if there are any. */
  lemma LeavesAtLimit(t: Shape, dad: seq<nat>, c: seq<nat>, limit: nat)
    requires ValidShape(t) && Levels(t, c, limit) && Fathers(t, dad)
    ensures SumIn(At(c, limit), t.leaves) >= FullFathers(t, c, limit) >= 0
    ensures FullFathers(t, c, limit) > 0 && limit > 0 ==> SumIn(At(c, limit), t.leaves) > FullFathers(t, c, limit)
  {
    hide SonsBelow, Joins;
    var v, e, n := Cut(t, dad, c, limit), At(c, limit), |t.pairs|;
    forall i: nat | i < |v| && i in Sons(t.pairs, n)
      ensures v[i] <= e[i]
    {
      CutIsAtLimit(t, dad, c, limit, i, n);
    }
    SumToMonotone(v, e, Sons(t.pairs, n), |v|);
    CutNodes(t, dad, c, limit);
    LeafAndInner(t, e);
    SumToBounds(e, Made(t.elems, n), |e|, 0, 1);
    RootNotFull(t, c, limit);
    if FullFathers(t, c, limit) > 0 && limit > 0 {
      var x := TopmostFull(t, dad, c, limit, n);
      var w := v[x := 1];
      SumToUpdate(v, w, Sons(t.pairs, n), x, |v|);
      forall i: nat | i < |w| && i in Sons(t.pairs, n)
        ensures w[i] <= e[i]
      {
        CutIsAtLimit(t, dad, c, limit, i, n);
      }
      SumToMonotone(w, e, Sons(t.pairs, n), |w|);
    }
  }

  /** The sons are the leaves and the inner nodes but the root. */
  lemma LeafAndInner(t: Shape, e: seq<int>)
    requires ValidShape(t) && |e| == t.Size()
    ensures t.Root() >= 0 && SumIn(e, Sons(t.pairs, |t.pairs|)) + e[t.Root()]
                             == SumIn(e, t.leaves) + SumIn(e, Made(t.elems, |t.pairs|))
  {
    hide Joins;
    SonsSum(t, e);
    SumInsert(e, Made(t.elems, |t.pairs| - 1), t.Root());
  }

  lemma RootNotFull(t: Shape, c: seq<nat>, limit: nat)
    requires ValidShape(t) && Levels(t, c, limit)
    ensures t.Root() >= 0 && At(c, limit)[t.Root()] == if limit == 0 then 1 else 0
  {
    hide SonsBelow, Joins;
  }

  /** A father at the limit whose own father is not at the limit: the one that was made last. */
  lemma {:induction false} TopmostFull(t: Shape, dad: seq<nat>, c: seq<nat>, limit: nat, k: nat) returns (x: nat)
    requires ValidShape(t) && Levels(t, c, limit) && Fathers(t, dad) && limit > 0 && k <= |t.pairs|
    requires SumIn(At(c, limit), Made(t.elems, k)) > 0
    requires forall x :: t.elems + k <= x < t.Size() ==> c[x] != limit
    ensures x in Sons(t.pairs, |t.pairs|) && x < t.Size() && c[x] == limit && Cut(t, dad, c, limit)[x] == 0
  {
    var e := At(c, limit);
    if k == 0 {
      SumToEmpty(e, |e|);
      assert false;
    } else {
      SumInsert(e, Made(t.elems, k - 1), t.elems + (k - 1));
      if c[t.elems + (k - 1)] == limit {
        x := t.elems + (k - 1);
        assert x != t.Root();
        assert x in t.leaves + Made(t.elems, |t.pairs| - 1);
        var j := SonOf(t, x, |t.pairs|);
        assert FatherOf(t, dad, j) && Joins(t, j);
        assert c[t.elems + j] != limit;
      } else {
        x := TopmostFull(t, dad, c, limit, k - 1);
      }
    }
  }

  /** The join that made a node a son. */
  lemma {:induction false} SonOf(t: Shape, x: nat, k: nat) returns (j: nat)
    requires k <= |t.pairs| && x in Sons(t.pairs, k)
    ensures j < k && (x == t.pairs[j].0 || x == t.pairs[j].1)
  {
    if x == t.pairs[k - 1].0 || x == t.pairs[k - 1].1 {
      j := k - 1;
    } else {
      j := SonOf(t, x, k - 1);
    }
  }

  lemma {:induction false} CutIsAtLimit(t: Shape, dad: seq<nat>, c: seq<nat>, limit: nat, x: nat, k: nat)
    requires ValidShape(t) && Levels(t, c, limit) && Fathers(t, dad)
    requires k <= |t.pairs| && x in Sons(t.pairs, k)
    ensures x < |c| && Cut(t, dad, c, limit)[x] <= At(c, limit)[x]
  {
    if x == t.pairs[k - 1].0 || x == t.pairs[k - 1].1 {
      SonsAreNodes(t, k - 1);
      assert SonsBelow(t, c, limit, k - 1) && FatherOf(t, dad, k - 1);
    } else {
      CutIsAtLimit(t, dad, c, limit, x, k - 1);
    }
  }
}
