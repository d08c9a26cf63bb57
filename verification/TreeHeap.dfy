/** The priority queue of tree nodes (pqdownheap and pqremove in zlib's trees.c). */
module TreeHeap {

  const HEAP_SIZE: nat := 573

  /** Node `n` comes before node `m`: less frequent, or as frequent and not deeper. */
  predicate Smaller(freq: seq<nat>, depth: seq<nat>, n: nat, m: nat)
    requires n < |freq| && n < |depth| && m < |freq| && m < |depth|
  {
    freq[n] < freq[m] || (freq[n] == freq[m] && depth[n] <= depth[m])
  }

  /** The heap entries 1 to `len` are nodes. */
  predicate Nodes(h: seq<nat>, len: nat, freq: seq<nat>, depth: seq<nat>) {
    len < |h| && forall j :: 1 <= j <= len ==> h[j] < |freq| && h[j] < |depth|
  }

  /** Each father from `k` on comes before its sons. */
  predicate OrderedFrom(h: seq<nat>, len: nat, k: nat, freq: seq<nat>, depth: seq<nat>)
    requires Nodes(h, len, freq, depth) && k >= 1
  {
    forall j :: 2 * k <= j <= len ==> Smaller(freq, depth, h[j / 2], h[j])
  }

  /** Position `k` may be out of order with its sons, but every other father from `k0` on is not. */
  predicate OrderedBut(h: seq<nat>, len: nat, k0: nat, k: nat, freq: seq<nat>, depth: seq<nat>)
    requires Nodes(h, len, freq, depth) && 1 <= k0 <= k <= len
  {
    && (forall j :: 2 * k0 <= j <= len && j / 2 != k ==> Smaller(freq, depth, h[j / 2], h[j]))
    && (forall j :: 2 * k <= j <= len && j / 2 == k && k / 2 >= k0 ==> Smaller(freq, depth, h[k / 2], h[j]))
  }

  lemma SwapKeeps(s: seq<nat>, i: nat, j: nat)
    requires i < |s| && j < |s|
    ensures multiset(s[i := s[j]][j := s[i]]) == multiset(s)
  {
  }

  /** Moving the smaller son up keeps everything else in order. */
  lemma MoveUp(h: seq<nat>, len: nat, k0: nat, k: nat, j: nat, freq: seq<nat>, depth: seq<nat>)
    requires Nodes(h, len, freq, depth) && 1 <= k0 <= k && j / 2 == k && j <= len
    requires OrderedBut(h, len, k0, k, freq, depth)
    requires Smaller(freq, depth, h[j], h[k])
    requires forall i :: 2 * k <= i <= len && i / 2 == k ==> Smaller(freq, depth, h[j], h[i])
    ensures Nodes(h[k := h[j]][j := h[k]], len, freq, depth)
    ensures OrderedBut(h[k := h[j]][j := h[k]], len, k0, j, freq, depth)
  {
  }

  /** A node that comes before both its sons is in order. */
  lemma Settled(h: seq<nat>, len: nat, k0: nat, k: nat, j: nat, freq: seq<nat>, depth: seq<nat>)
    requires Nodes(h, len, freq, depth) && 1 <= k0 <= k <= len
    requires OrderedBut(h, len, k0, k, freq, depth)
    requires j <= len ==> j / 2 == k && Smaller(freq, depth, h[k], h[j])
    requires j > len ==> 2 * k > len
    requires forall i :: j <= len && 2 * k <= i <= len && i / 2 == k ==> Smaller(freq, depth, h[j], h[i])
    ensures OrderedFrom(h, len, k0, freq, depth)
  {
  }

  lemma Unsettled(h: seq<nat>, len: nat, k: nat, freq: seq<nat>, depth: seq<nat>)
    requires Nodes(h, len, freq, depth) && 1 <= k <= len && OrderedFrom(h, len, k + 1, freq, depth)
    ensures OrderedBut(h, len, k, k, freq, depth)
  {
  }

  lemma SmallerTotal(freq: seq<nat>, depth: seq<nat>, n: nat, m: nat)
    requires n < |freq| && n < |depth| && m < |freq| && m < |depth|
    ensures Smaller(freq, depth, n, m) || Smaller(freq, depth, m, n)
    ensures Smaller(freq, depth, n, n)
  {
  }

  /** The position of the smaller of the two sons at `j` and `j + 1`, or `j` if it is the last. */
  method SmallestSon(heap: array<nat>, ghost h: seq<nat>, len: nat, j: nat, freq: seq<nat>, depth: seq<nat>)
    returns (s: nat)
    requires 1 <= j <= len < heap.Length == |h| && j % 2 == 0 && Nodes(h, len, freq, depth)
    requires forall i :: j <= i <= len ==> heap[i] == h[i]
    ensures j <= s <= len && s / 2 == j / 2
    ensures forall i :: j <= i <= len && i / 2 == j / 2 ==> Smaller(freq, depth, h[s], h[i])
  {
    s := j;
    if j < len && Smaller(freq, depth, heap[j + 1], heap[j]) {
      s := j + 1;
    }
    assert forall i :: j <= i <= len && i / 2 == j / 2 ==> i == j || i == j + 1;
  }

  lemma MoveUpSmaller(h: seq<nat>, len: nat, k0: nat, k: nat, j: nat, freq: seq<nat>, depth: seq<nat>)
    requires Nodes(h, len, freq, depth) && 1 <= k0 <= k && j / 2 == k && j <= len
    requires OrderedBut(h, len, k0, k, freq, depth) && !Smaller(freq, depth, h[k], h[j])
    requires forall i :: 2 * k <= i <= len && i / 2 == k ==> Smaller(freq, depth, h[j], h[i])
    ensures Nodes(h[k := h[j]][j := h[k]], len, freq, depth)
    ensures OrderedBut(h[k := h[j]][j := h[k]], len, k0, j, freq, depth)
    ensures multiset(h[k := h[j]][j := h[k]]) == multiset(h)
  {
    hide OrderedBut, Smaller;
    SmallerTotal(freq, depth, h[k], h[j]);
    MoveUp(h, len, k0, k, j, freq, depth);
    SwapKeeps(h, k, j);
  }

  /**
    Moves the node at `start` down until every father from `start` on comes before its sons.
   */
  method DownHeap(heap: array<nat>, len: nat, start: nat, freq: seq<nat>, depth: seq<nat>)
    requires 1 <= start <= len < heap.Length && Nodes(heap[..], len, freq, depth)
    requires OrderedFrom(heap[..], len, start + 1, freq, depth)
    modifies heap
    ensures Nodes(heap[..], len, freq, depth)
    ensures OrderedFrom(heap[..], len, start, freq, depth)
    ensures multiset(heap[..]) == old(multiset(heap[..]))
    ensures forall j :: 0 <= j < start || len < j < heap.Length ==> heap[j] == old(heap[j])
  {
    hide Smaller, OrderedFrom, OrderedBut;
    var k: nat := start;
    var v := heap[k];
    var j: nat := 2 * k;
    ghost var h := heap[..];
    Unsettled(h, len, k, freq, depth);
    while j <= len
      invariant start <= k <= len && j == 2 * k
      invariant |h| == heap.Length && h[k] == v
      invariant forall i :: 0 <= i < heap.Length && i != k ==> heap[i] == h[i]
      invariant Nodes(h, len, freq, depth) && OrderedBut(h, len, start, k, freq, depth)
      invariant multiset(h) == old(multiset(heap[..]))
      invariant forall i :: 0 <= i < start || len < i < heap.Length ==> h[i] == old(heap[i])
      decreases len - k
    {
      j := SmallestSon(heap, h, len, j, freq, depth);
      if Smaller(freq, depth, v, heap[j]) {
        break;
      }
      MoveUpSmaller(h, len, start, k, j, freq, depth);
      h := h[k := h[j]][j := h[k]];
      heap[k] := heap[j];
      k := j;
      j := 2 * j;
    }
    Settled(h, len, start, k, j, freq, depth);
    heap[k] := v;
    assert heap[..] == h;
  }

  /** The first entry comes before all others. */
  lemma {:induction false} HeapMinimum(h: seq<nat>, len: nat, j: nat, freq: seq<nat>, depth: seq<nat>)
    requires Nodes(h, len, freq, depth) && 1 <= j <= len && OrderedFrom(h, len, 1, freq, depth)
    ensures Smaller(freq, depth, h[1], h[j])
  {
    if j > 1 {
      HeapMinimum(h, len, j / 2, freq, depth);
    }
  }

  /** Replacing the first entry and dropping the last one leaves the sons of the others in order. */
  lemma ReplaceFirst(h: seq<nat>, len: nat, x: nat, freq: seq<nat>, depth: seq<nat>)
    requires Nodes(h, len, freq, depth) && 1 < len && OrderedFrom(h, len, 1, freq, depth)
    requires x < |freq| && x < |depth|
    ensures Nodes(h[1 := x], len - 1, freq, depth) && OrderedFrom(h[1 := x], len - 1, 2, freq, depth)
    ensures Nodes(h[1 := x], len, freq, depth) && OrderedFrom(h[1 := x], len, 2, freq, depth)
  {
  }

  /** The entries 1 to `len` are a permutation of the set `s`. */
  ghost predicate Holds(h: seq<nat>, len: nat, s: set<nat>) {
    len < |h| && multiset(h[1..len + 1]) == multiset(s)
  }

  lemma HoldsEntries(h: seq<nat>, len: nat, s: set<nat>)
    requires Holds(h, len, s)
    ensures |s| == len
    ensures forall j :: 1 <= j <= len ==> h[j] in s
    ensures forall x :: x in s ==> exists j :: 1 <= j <= len && h[j] == x
  {
    var e := h[1..len + 1];
    assert |multiset(e)| == len && |multiset(s)| == |s|;
    forall j | 1 <= j <= len
      ensures h[j] in s
    {
      assert h[j] == e[j - 1] && e[j - 1] in multiset(e);
    }
    forall x | x in s
      ensures exists j :: 1 <= j <= len && h[j] == x
    {
      assert x in multiset(s) && x in e;
      var i :| 0 <= i < |e| && e[i] == x;
      assert h[i + 1] == x;
    }
  }

  lemma HoldsAppend(h: seq<nat>, len: nat, s: set<nat>, x: nat)
    requires Holds(h, len, s) && x !in s && len + 1 < |h|
    ensures Holds(h[len + 1 := x], len + 1, s + {x})
  {
    var h' := h[len + 1 := x];
    assert h'[1..len + 2] == h[1..len + 1] + [x];
  }

  lemma HoldsReplaceFirst(h: seq<nat>, len: nat, s: set<nat>, x: nat)
    requires Holds(h, len, s) && len >= 1 && x !in s - {h[1]}
    ensures h[1] in s
    ensures Holds(h[1 := x], len, s - {h[1]} + {x})
  {
    HoldsEntries(h, len, s);
    var e := h[1..len + 1];
    assert h[1 := x][1..len + 1] == e[0 := x];
  }

  lemma HoldsRemoveFirst(h: seq<nat>, len: nat, s: set<nat>)
    requires Holds(h, len, s) && len >= 2
    ensures h[1] in s && h[len] in s
    ensures Holds(h[1 := h[len]], len - 1, s - {h[1]})
  {
    HoldsEntries(h, len, s);
    var e, rest, h' := h[1..len + 1], [h[len]] + h[2..len], h[1 := h[len]];
    assert h'[1..len] == rest;
    assert e == [h[1]] + h[2..len] + [h[len]];
    WithoutFirst(e, rest, h[1], s);
  }

  lemma WithoutFirst(e: seq<nat>, rest: seq<nat>, x: nat, s: set<nat>)
    requires multiset(e) == multiset(s) && multiset(e) == multiset{x} + multiset(rest)
    ensures x in s && multiset(rest) == multiset(s - {x})
  {
    assert x in multiset(e);
    var m: multiset<nat>, m': multiset<nat> := multiset(rest), multiset(s - {x});
    forall y: nat
      ensures m[y] == m'[y]
    {
      assert multiset(e)[y] == multiset{x}[y] + m[y];
    }
  }

  /** A permutation that keeps everything outside the entries permutes the entries. */
  lemma HoldsPermuted(h: seq<nat>, h': seq<nat>, len: nat, s: set<nat>)
    requires Holds(h, len, s) && |h| == |h'| && multiset(h) == multiset(h')
    requires h[0] == h'[0] && forall j :: len < j < |h| ==> h[j] == h'[j]
    ensures Holds(h', len, s)
  {
    var a, e, e', z := [h[0]], h[1..len + 1], h'[1..len + 1], h[len + 1..];
    assert h == a + e + z && h' == a + e' + z;
    assert multiset(h) == multiset(a) + multiset(e) + multiset(z);
    assert multiset(h') == multiset(a) + multiset(e') + multiset(z);
    assert h[1..len + 1] == e && h'[1..len + 1] == e';
    Cancel(multiset(a), multiset(e), multiset(e'), multiset(z));
  }

  lemma Cancel(a: multiset<nat>, m: multiset<nat>, m': multiset<nat>, z: multiset<nat>)
    requires a + m + z == a + m' + z
    ensures m == m'
  {
    forall x
      ensures m[x] == m'[x]
    {
      assert (a + m + z)[x] == (a + m' + z)[x];
    }
  }
}
