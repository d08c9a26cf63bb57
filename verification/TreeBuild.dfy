/** Building one Huffman tree (build_tree in zlib's trees.c). */
module TreeBuild {
  import opened Arithmetic
  import opened HuffmanTree
  import opened TreeHeap

  const L_CODES: nat := 286

  /** The constant part of a tree's description: extra bits, number of symbols and length limit. */
  datatype StaticDesc = StaticDesc(hasTree: bool, lens: seq<nat>, extra: seq<nat>, base: nat, elems: nat, limit: nat)
  {
    predicate Valid() {
      && 3 <= elems <= L_CODES && 1 <= limit <= 15 && elems <= Pow2(limit)
      && elems <= base + |extra| && (hasTree ==> |lens| >= elems)
      && Extra(0) == Extra(1) == Extra(2) == 0
    }

    /** The extra bits that follow the code of symbol `n`. */
    function Extra(n: nat): nat {
      if base <= n < base + |extra| then extra[n - base] else 0
    }
  }

  /** The nodes joined at step `k` lie at the heap's end, in the order of their frequency. */
  ghost predicate Sorted(h: seq<nat>, t: Shape) {
    && 2 * |t.pairs| <= HEAP_SIZE == |h|
    && forall k :: 0 <= k < |t.pairs| ==> h[572 - 2 * k] == t.pairs[k].0 && h[571 - 2 * k] == t.pairs[k].1
  }

  ghost predicate Queue(h: seq<nat>, len: nat, freq: seq<nat>, depth: seq<nat>, roots: set<nat>) {
    && |h| == HEAP_SIZE == |depth| && 1 <= len < HEAP_SIZE && Nodes(h, len, freq, depth)
    && Holds(h, len, roots) && OrderedFrom(h, len, 1, freq, depth)
  }

  /** A new node that is not in the queue does not disturb it. */
  lemma QueueIgnores(h: seq<nat>, len: nat, freq: seq<nat>, depth: seq<nat>, roots: set<nat>,
                     freq': seq<nat>, depth': seq<nat>, node: nat)
    requires Queue(h, len, freq, depth, roots) && node !in roots && node < |freq| && node < |depth|
    requires |freq'| == |freq| && |depth'| == |depth|
    requires forall x :: 0 <= x < |freq| && x != node ==> freq'[x] == freq[x]
    requires forall x :: 0 <= x < |depth| && x != node ==> depth'[x] == depth[x]
    ensures Queue(h, len, freq', depth', roots)
  {
    HoldsEntries(h, len, roots);
  }

  /**
    Step `k` joined the two nodes that came first by frequency and then by depth; the new node's depth, in 8 bits, is
    one more than that of the deeper of them.
   */
  ghost predicate Foremost(t: Shape, freq: seq<nat>, depth: seq<nat>, k: nat)
    requires k < |t.pairs|
  {
    var (a, b) := t.pairs[k];
    && a < |freq| && b < |freq| && a < |depth| && b < |depth| && t.elems + k < |depth|
    && depth[t.elems + k] == (Max(depth[a], depth[b]) + 1) % 0x100 && Smaller(freq, depth, a, b)
    && forall x :: 0 <= x < |freq| && x < |depth| && Waiting(t, k, x) && x != a && x != b ==> Smaller(freq, depth, b, x)
  }

  /** A tree built by joining the foremost two nodes over and over; leaves have depth 0. */
  ghost predicate Ranked(t: Shape, freq: seq<nat>, depth: seq<nat>) {
    && (forall x :: x in t.leaves ==> x < |depth| && depth[x] == 0)
    && forall k :: 0 <= k < |t.pairs| ==> Foremost(t, freq, depth, k)
  }

  lemma RankedKept(t: Shape, freq: seq<nat>, freq': seq<nat>, depth: seq<nat>, depth': seq<nat>, a: nat, b: nat, k: nat)
    requires k < |t.pairs| && Joins(t, k) && Foremost(t, freq, depth, k)
    requires forall x :: x in t.leaves ==> x < t.elems
    requires t.Size() < |freq| == |freq'| && forall x :: 0 <= x < t.Size() ==> freq'[x] == freq[x]
    requires t.Size() < |depth| == |depth'| && forall x :: 0 <= x < t.Size() ==> depth'[x] == depth[x]
    ensures Foremost(Grow(t, a, b), freq', depth', k)
  {
    var t' := Grow(t, a, b);
    SonsPrefix(t.pairs, (a, b), k);
    assert t'.pairs[k] == t.pairs[k];
    forall x: nat | Waiting(t', k, x)
      ensures Waiting(t, k, x) && x < t.Size()
    {
    }
  }

  lemma RankedGrow(t: Shape, roots: set<nat>, freq: seq<nat>, freq': seq<nat>, depth: seq<nat>, depth': seq<nat>,
      a: nat, b: nat)
    requires Forest(t, roots) && Ranked(t, freq, depth) && a in roots && b in roots && a != b
    requires t.Size() < |freq| == |freq'| && forall x :: 0 <= x < |freq| && x != t.Size() ==> freq'[x] == freq[x]
    requires t.Size() < |depth| == |depth'| && forall x :: 0 <= x < |depth| && x != t.Size() ==> depth'[x] == depth[x]
    requires forall x :: x in roots ==> x < |freq| && x < |depth|
    requires depth'[t.Size()] == (Max(depth[a], depth[b]) + 1) % 0x100
    requires forall x :: x in roots ==> Smaller(freq, depth, a, x) && (x != a ==> Smaller(freq, depth, b, x))
    ensures Ranked(Grow(t, a, b), freq', depth')
  {
    var n, t' := |t.pairs|, Grow(t, a, b);
    forall k | 0 <= k < n
      ensures Foremost(t', freq', depth', k)
    {
      assert Joins(t, k) && Foremost(t, freq, depth, k);
      RankedKept(t, freq, freq', depth, depth', a, b, k);
    }
    JoinTwo(t, roots, a, b);
    RankedLast(t, roots, freq, freq', depth, depth', a, b);
  }

  lemma RankedLast(t: Shape, roots: set<nat>, freq: seq<nat>, freq': seq<nat>, depth: seq<nat>, depth': seq<nat>,
      a: nat, b: nat)
    requires Forest(t, roots) && a in roots && b in roots && a != b && a < t.Size() && b < t.Size()
    requires t.Size() < |freq| == |freq'| && forall x :: 0 <= x < |freq| && x != t.Size() ==> freq'[x] == freq[x]
    requires t.Size() < |depth| == |depth'| && forall x :: 0 <= x < |depth| && x != t.Size() ==> depth'[x] == depth[x]
    requires forall x :: x in roots ==> x < |freq| && x < |depth|
    requires depth'[t.Size()] == (Max(depth[a], depth[b]) + 1) % 0x100
    requires forall x :: x in roots ==> Smaller(freq, depth, a, x) && (x != a ==> Smaller(freq, depth, b, x))
    ensures Foremost(Grow(t, a, b), freq', depth', |t.pairs|)
  {
    var n, t' := |t.pairs|, Grow(t, a, b);
    SonsPrefix(t.pairs, (a, b), n);
    forall x: nat | Waiting(t', n, x)
      ensures x in roots && x < t.Size()
    {
      assert x in t.leaves + Made(t.elems, n);
    }
  }

  /** The part of the compressor's state that building trees uses. */
  class DeflateState {
    const heap: array<nat>
    var heapLen: nat
    var heapMax: nat
    const depth: array<nat>
    const blCount: array<nat>
    var optLen: int
    var staticLen: int

    predicate Valid()
    {
      && heap.Length == depth.Length == HEAP_SIZE && blCount.Length == 16
      && heap != depth && heap != blCount && depth != blCount
    }

    constructor ()
      ensures Valid() && fresh(heap) && fresh(depth) && fresh(blCount) && optLen == 0 && staticLen == 0
    {
      heap, depth, blCount := new nat[HEAP_SIZE], new nat[HEAP_SIZE], new nat[16];
      heapLen, heapMax, optLen, staticLen := 0, HEAP_SIZE, 0, 0;
    }

    /** Restores the order of the queue after its first entry was replaced (by `x`). */
    method Reorder(freq: seq<nat>, ghost roots: set<nat>)
      requires Valid() && 1 <= heapLen < HEAP_SIZE
      requires Nodes(heap[..], heapLen, freq, depth[..]) && Holds(heap[..], heapLen, roots)
      requires OrderedFrom(heap[..], heapLen, 2, freq, depth[..])
      modifies heap
      ensures Queue(heap[..], heapLen, freq, depth[..], roots)
      ensures forall j :: heapLen < j < HEAP_SIZE ==> heap[j] == old(heap[j])
    {
      ghost var d := depth[..];
      DownHeap(heap, heapLen, 1, freq, depth[..]);
      assert depth[..] == d;
      HoldsPermuted(old(heap[..]), heap[..], heapLen, roots);
    }

    /** Removes the least frequent node (the macro pqremove). */
    method PqRemove(freq: seq<nat>, ghost roots: set<nat>) returns (top: nat)
      requires Valid() && heapLen >= 2 && Queue(heap[..], heapLen, freq, depth[..], roots)
      modifies heap, `heapLen
      ensures heapLen == old(heapLen) - 1 && top in roots && top < |freq| && top < depth.Length
      ensures Queue(heap[..], heapLen, freq, depth[..], roots - {top})
      ensures forall x :: x in roots ==> x < |freq| && x < depth.Length && Smaller(freq, depth[..], top, x)
      ensures forall j :: old(heapLen) < j < HEAP_SIZE ==> heap[j] == old(heap[j])
    {
      ghost var h, len, d := heap[..], heapLen, depth[..];
      top := heap[1];
      RootIsLeast(h, len, freq, d, roots);
      HoldsRemoveFirst(h, len, roots);
      ReplaceFirst(h, len, h[len], freq, d);
      heap[1] := heap[heapLen];
      heapLen := heapLen - 1;
      assert heap[..] == h[1 := h[len]] && depth[..] == d;
      Reorder(freq, roots - {top});
    }

    /** The state between two joins: `t` is what was built, `roots` are the nodes in the queue. */
    ghost predicate Joining(fc: array<nat>, dl: array<nat>, t: Shape, roots: set<nat>)
      reads this, heap, depth, fc, dl
    {
      && Valid() && TreeArrays(fc, dl)
      && t.Size() < fc.Length
      && Forest(t, roots) && Greedy(t, fc[..]) && Ranked(t, fc[..], depth[..]) && Fathers(t, dl[..])
      && heapLen == |t.leaves| - |t.pairs| && |t.leaves| <= L_CODES && heapMax == HEAP_SIZE - 2 * |t.pairs|
      && Queue(heap[..], heapLen, fc[..], depth[..], roots) && Sorted(heap[..], t)
    }

    predicate TreeArrays(fc: array<nat>, dl: array<nat>) {
      && fc.Length == dl.Length <= HEAP_SIZE && fc != dl
      && fc !in {heap, depth, blCount} && dl !in {heap, depth, blCount}
    }

    /** Makes `node` the father of `n` and `m` and puts it in the queue in the place of `m`. */
    method Link(fc: array<nat>, dl: array<nat>, node: nat, n: nat, m: nat)
      requires Valid() && TreeArrays(fc, dl) && n < node && m < node && node < fc.Length
      requires 2 < heapMax <= HEAP_SIZE
      modifies heap, depth, fc, dl, `heapMax
      ensures heapMax == old(heapMax) - 2
      ensures heap[..] == old(heap[..])[heapMax + 1 := n][heapMax := m][1 := node]
      ensures fc[..] == old(fc[..])[node := (old(fc[n]) + old(fc[m])) % 0x1_0000]
      ensures dl[..] == old(dl[..])[n := node][m := node]
      ensures depth[node] == (Max(old(depth[n]), old(depth[m])) + 1) % 0x100
      ensures forall x :: 0 <= x < HEAP_SIZE && x != node ==> depth[x] == old(depth[x])
    {
      heapMax := heapMax - 1;
      heap[heapMax] := n;
      heapMax := heapMax - 1;
      heap[heapMax] := m;
      fc[node] := (fc[n] + fc[m]) % 0x1_0000;
      depth[node] := (Max(depth[n], depth[m]) + 1) % 0x100;
      dl[n] := node;
      dl[m] := node;
      heap[1] := node;
    }

    /** One round of the main loop: joins the two least frequent nodes under `node`. */
    method JoinStep(fc: array<nat>, dl: array<nat>, node: nat, ghost t: Shape, ghost roots: set<nat>)
      returns (ghost t': Shape, ghost roots': set<nat>)
      requires Joining(fc, dl, t, roots) && heapLen >= 2 && node == t.Size() && node + 1 < fc.Length
      modifies heap, depth, fc, dl, `heapLen, `heapMax
      ensures Joining(fc, dl, t', roots')
      ensures t'.leaves == t.leaves && t'.elems == t.elems && t'.Size() == t.Size() + 1 && node in roots'
      ensures heapLen == old(heapLen) - 1
      ensures forall x :: 0 <= x < t.elems ==> fc[x] == old(fc[x])
      ensures forall x :: 0 <= x < t.elems && x !in t.leaves ==> dl[x] == old(dl[x])
    {
      hide Queue, Forest, Greedy, Ranked, Fathers, Sorted, Holds, OrderedFrom, Nodes, Smaller;
      ghost var h0: seq<nat>, f0: seq<nat>, d0: seq<nat>, l0: seq<nat> := heap[..], fc[..], depth[..], dl[..];
      RootsBelow(t, roots);
      var n := PqRemove(fc[..], roots);
      ghost var h1, rest := heap[..], roots - {n};
      assert fc[..] == f0 && depth[..] == d0 && dl[..] == l0;
      RootIsLeast(h1, heapLen, f0, d0, rest);
      var m := heap[1];
      Link(fc, dl, node, n, m);
      t', roots' := Grow(t, n, m), roots - {n} - {m} + {node};
      ghost var h3, f1, d1 := heap[..], fc[..], depth[..];
      JoinQueue(h1, h3, heapLen, f0, d0, f1, d1, rest, node);
      Reorder(fc[..], roots');
      assert fc[..] == f1 && depth[..] == d1 && dl[..] == l0[n := node][m := node];
      Joined(t, roots, h0, heap[..], f0, f1, d0, d1, l0, dl[..], n, m);
    }

    /** Puts the symbols that are used in the queue; the others get length 0. */
    method InitHeap(fc: array<nat>, dl: array<nat>, elems: nat) returns (maxCode: int)
      requires Valid() && TreeArrays(fc, dl) && elems <= L_CODES && elems < fc.Length
      modifies heap, depth, dl, `heapLen, `heapMax
      ensures heapMax == HEAP_SIZE && heapLen <= elems
      ensures Holds(heap[..], heapLen, Used(fc[..], elems)) && LastUsed(fc[..], elems, maxCode)
      ensures forall x :: 0 <= x < elems ==> if fc[x] == 0 then dl[x] == 0 else depth[x] == 0
    {
      hide Holds, Used, LastUsed;
      heapLen, heapMax, maxCode := 0, HEAP_SIZE, -1;
      var n: nat := 0;
      NoneUsed(heap[..], fc[..]);
      while n < elems
        invariant n <= elems && heapLen <= n && heapMax == HEAP_SIZE
        invariant fc[..] == old(fc[..])
        invariant Holds(heap[..], heapLen, Used(fc[..], n)) && LastUsed(fc[..], n, maxCode)
        invariant forall x :: 0 <= x < n ==> if fc[x] == 0 then dl[x] == 0 else depth[x] == 0
      {
        ghost var h, f := heap[..], fc[..];
        UsedStep(h, heapLen, f, n, maxCode);
        if fc[n] != 0 {
          heapLen := heapLen + 1;
          heap[heapLen] := n;
          maxCode := n;
          depth[n] := 0;
          assert heap[..] == h[heapLen := n] && fc[..] == f;
        } else {
          dl[n] := 0;
          assert heap[..] == h && fc[..] == f;
        }
        n := n + 1;
      }
    }

    /** Makes sure that at least two symbols are in use, so that every code has at least one bit. */
    method ForceCodes(fc: array<nat>, dl: array<nat>, stat: StaticDesc, lastUsed: int) returns (maxCode: int)
      requires Valid() && TreeArrays(fc, dl) && stat.Valid() && stat.elems < fc.Length
      requires heapLen <= stat.elems && Holds(heap[..], heapLen, Used(fc[..], stat.elems))
      requires LastUsed(fc[..], stat.elems, lastUsed)
      requires forall x :: 0 <= x < stat.elems && fc[x] != 0 ==> depth[x] == 0
      modifies heap, depth, fc, `heapLen, `optLen, `staticLen
      ensures forall x :: 0 <= x < stat.elems && fc[x] != 0 ==> depth[x] == 0
      ensures heapLen == Max(old(heapLen), 2)
      ensures Holds(heap[..], heapLen, Used(fc[..], stat.elems)) && LastUsed(fc[..], stat.elems, maxCode)
      ensures forall x :: stat.elems <= x < fc.Length ==> fc[x] == old(fc[x])
      ensures Forced(old(fc[..]), fc[..], stat, heapLen <= 2)
      ensures optLen == old(optLen) - NumForced(old(fc[..]), fc[..], stat.elems)
      ensures stat.hasTree ==>
                staticLen + Cost(stat, fc[..], stat.lens, stat.elems) ==
                old(staticLen) + old(Cost(stat, fc[..], stat.lens, stat.elems))
      ensures !stat.hasTree ==> staticLen == old(staticLen)
    {
      hide Holds, Used, LastUsed, Forced, Cost, NumForced;
      maxCode := lastUsed;
      ghost var f0 := fc[..];
      NothingForced(f0, stat, heapLen <= 2, stat.elems);
      LastUsedBound(f0, stat.elems, maxCode);
      while heapLen < 2
        invariant old(heapLen) <= heapLen <= Max(old(heapLen), 2)
        invariant Holds(heap[..], heapLen, Used(fc[..], stat.elems)) && LastUsed(fc[..], stat.elems, maxCode)
        invariant forall x :: stat.elems <= x < fc.Length ==> fc[x] == old(fc[x])
        invariant forall x :: 0 <= x < stat.elems && fc[x] != 0 ==> depth[x] == 0
        invariant maxCode >= -1 && Forced(f0, fc[..], stat, heapLen <= 2)
        invariant NumForced(f0, fc[..], stat.elems) == heapLen - old(heapLen)
        invariant optLen == old(optLen) - NumForced(f0, fc[..], stat.elems)
        invariant stat.hasTree ==>
                    staticLen + Cost(stat, fc[..], stat.lens, stat.elems) ==
                    old(staticLen) + old(Cost(stat, fc[..], stat.lens, stat.elems))
        invariant !stat.hasTree ==> staticLen == old(staticLen)
      {
        ghost var h, f := heap[..], fc[..];
        var node: nat := 0;
        if maxCode < 2 {
          maxCode := maxCode + 1;
          node := maxCode;
        }
        ForceStep(f0, h, heapLen, f, stat, node, maxCode);
        heapLen := heapLen + 1;
        heap[heapLen] := node;
        fc[node] := 1;
        depth[node] := 0;
        optLen := optLen - 1;
        if stat.hasTree {
          staticLen := staticLen - stat.lens[node];
        }
        assert heap[..] == h[heapLen := node] && fc[..] == f[node := 1];
      }
    }

    /** Establishes the queue's order, from the last father to the first entry. */
    method BuildHeap(freq: seq<nat>, ghost roots: set<nat>)
      requires Valid() && 2 <= heapLen < HEAP_SIZE
      requires Nodes(heap[..], heapLen, freq, depth[..]) && Holds(heap[..], heapLen, roots)
      modifies heap
      ensures Queue(heap[..], heapLen, freq, depth[..], roots)
    {
      hide Smaller;
      var n: nat := heapLen / 2;
      while n >= 1
        invariant 2 * n <= heapLen && depth[..] == old(depth[..])
        invariant Nodes(heap[..], heapLen, freq, depth[..]) && Holds(heap[..], heapLen, roots)
        invariant OrderedFrom(heap[..], heapLen, n + 1, freq, depth[..])
      {
        ghost var h, d := heap[..], depth[..];
        DownHeap(heap, heapLen, n, freq, depth[..]);
        assert depth[..] == d;
        HoldsPermuted(h, heap[..], heapLen, roots);
        n := n - 1;
      }
    }

    /** Joins nodes until one is left, which is the root. */
    method Combine(fc: array<nat>, dl: array<nat>, elems: nat, ghost leaves: set<nat>) returns (ghost t: Shape)
      requires Joining(fc, dl, Shape(elems, leaves, []), leaves) && 2 <= heapLen <= elems && 2 * elems < fc.Length
      modifies heap, depth, fc, dl, `heapLen, `heapMax
      ensures ValidShape(t) && t.elems == elems && t.leaves == leaves && |t.pairs| == |leaves| - 1
      ensures t.Size() <= fc.Length
      ensures Greedy(t, fc[..]) && Ranked(t, fc[..], depth[..]) && Fathers(t, dl[..]) && Sorted(heap[..], t)
      ensures heapMax == 572 - 2 * |t.pairs| && heap[heapMax] == t.Root()
      ensures forall x :: 0 <= x < elems ==> fc[x] == old(fc[x])
      ensures forall x :: 0 <= x < elems && x !in leaves ==> dl[x] == old(dl[x])
    {
      hide Queue, Forest, Greedy, Ranked, Fathers, Sorted;
      t := Shape(elems, leaves, []);
      ghost var roots := leaves;
      var node := elems;
      while heapLen >= 2
        invariant Joining(fc, dl, t, roots) && t.elems == elems && t.leaves == leaves
        invariant node == t.Size() && 1 <= heapLen && |leaves| <= elems
        invariant |t.pairs| > 0 ==> t.Root() in roots
        invariant |t.pairs| == 0 ==> heapLen >= 2
        invariant forall x :: 0 <= x < elems ==> fc[x] == old(fc[x])
        invariant forall x :: 0 <= x < elems && x !in leaves ==> dl[x] == old(dl[x])
        decreases heapLen
      {
        t, roots := JoinStep(fc, dl, node, t, roots);
        node := node + 1;
      }
      ghost var h := heap[..];
      OnlyRoot(h, fc[..], depth[..], t, roots);
      heapMax := heapMax - 1;
      heap[heapMax] := heap[1];
      SortedFrame(h, heap[..], t);
    }
  }

  /** The symbols in use. */
  function Used(freq: seq<nat>, n: nat): set<nat>
    requires n <= |freq|
  {
    set x: nat | x < n && freq[x] != 0
  }

  /** The last symbol in use, or -1. */
  predicate LastUsed(freq: seq<nat>, n: nat, maxCode: int)
    requires n <= |freq|
  {
    && -1 <= maxCode < n && (maxCode >= 0 ==> freq[maxCode] != 0)
    && forall x :: maxCode < x < n ==> freq[x] == 0
  }

  lemma LastUsedBound(freq: seq<nat>, n: nat, maxCode: int)
    requires n <= |freq| && LastUsed(freq, n, maxCode)
    ensures -1 <= maxCode < n
  {
  }

  lemma NoneUsed(h: seq<nat>, freq: seq<nat>)
    requires |h| >= 1
    ensures Holds(h, 0, Used(freq, 0)) && LastUsed(freq, 0, -1)
  {
    assert h[1..1] == [];
  }

  /** Counting one more symbol. */
  lemma UsedStep(h: seq<nat>, len: nat, freq: seq<nat>, n: nat, maxCode: int)
    requires n < |freq| && Holds(h, len, Used(freq, n)) && LastUsed(freq, n, maxCode) && len + 1 < |h|
    ensures freq[n] == 0 ==> Used(freq, n + 1) == Used(freq, n) && LastUsed(freq, n + 1, maxCode)
    ensures freq[n] != 0 ==> Holds(h[len + 1 := n], len + 1, Used(freq, n + 1)) && LastUsed(freq, n + 1, n)
  {
    var s := Used(freq, n);
    if freq[n] == 0 {
      assert Used(freq, n + 1) == s;
    } else {
      HoldsAppend(h, len, s, n);
      assert Used(freq, n + 1) == s + {n};
    }
  }

  /** What sending all symbols takes, if symbol `x` takes `lens[x]` bits and its extra bits. */
  function Cost(stat: StaticDesc, freq: seq<nat>, lens: seq<nat>, n: nat): nat
    requires n <= |freq| && n <= |lens|
  {
    if n == 0 then 0
    else
      MulPositive(freq[n - 1], lens[n - 1] + stat.Extra(n - 1));
      Cost(stat, freq, lens, n - 1) + freq[n - 1] * (lens[n - 1] + stat.Extra(n - 1))
  }

  lemma {:induction false} CostUpdate(stat: StaticDesc, freq: seq<nat>, lens: seq<nat>, x: nat, v: nat, n: nat)
    requires n <= |freq| && n <= |lens| && x < |freq| && x < |lens| && freq[x] == 0
    ensures Cost(stat, freq[x := v], lens, n) ==
            Cost(stat, freq, lens, n) + if x < n then v * (lens[x] + stat.Extra(x)) else 0
  {
    if n > 0 {
      CostUpdate(stat, freq, lens, x, v, n - 1);
    }
  }

  lemma {:induction false} CostPrefix(stat: StaticDesc, freq: seq<nat>, freq': seq<nat>, lens: seq<nat>,
      lens': seq<nat>, n: nat)
    requires n <= |freq| && n <= |lens| && n <= |freq'| && n <= |lens'|
    requires forall x :: 0 <= x < n ==> freq[x] == freq'[x] && lens[x] == lens'[x]
    ensures Cost(stat, freq, lens, n) == Cost(stat, freq', lens', n)
  {
    if n > 0 {
      CostPrefix(stat, freq, freq', lens, lens', n - 1);
    }
  }

  /** How many of the first `n` symbols were put in use. */
  function NumForced(freq: seq<nat>, freq': seq<nat>, n: nat): nat
    requires n <= |freq| && n <= |freq'|
  {
    if n == 0 then 0 else NumForced(freq, freq', n - 1) + if freq[n - 1] != freq'[n - 1] then 1 else 0
  }

  lemma {:induction false} NothingForced(freq: seq<nat>, stat: StaticDesc, may: bool, n: nat)
    requires n <= |freq|
    ensures NumForced(freq, freq, n) == 0 && Forced(freq, freq, stat, may)
  {
    if n > 0 {
      NothingForced(freq, stat, may, n - 1);
    }
  }

  lemma {:induction false} ForceOne(f0: seq<nat>, f: seq<nat>, x: nat, n: nat)
    requires n <= |f0| == |f| && x < |f| && f0[x] == f[x] == 0
    ensures NumForced(f0, f[x := 1], n) == NumForced(f0, f, n) + if x < n then 1 else 0
  {
    if n > 0 {
      ForceOne(f0, f, x, n - 1);
    }
  }

  /** Symbols put in use have no extra bits, and there are only such symbols if `may` holds. */
  ghost predicate Forced(freq: seq<nat>, freq': seq<nat>, stat: StaticDesc, may: bool) {
    && |freq| == |freq'|
    && forall x :: 0 <= x < |freq| && freq'[x] != freq[x] ==> may && freq[x] == 0 && freq'[x] == 1 && stat.Extra(x) == 0
  }

  lemma TwoMembers(s: set<nat>, a: nat, b: nat)
    requires a in s && b in s && a != b
    ensures |s| >= 2
  {
    assert s == {a} + (s - {a});
    assert b in s - {a};
  }

  /** The symbol that gets forced was not in use. */
  lemma FreeSymbol(freq: seq<nat>, n: nat, node: nat, maxCode: int)
    requires 3 <= n <= |freq| && |Used(freq, n)| < 2
    requires || (LastUsed(freq, n, maxCode) && maxCode >= 2 && node == 0)
             || (0 <= maxCode == node < 3 && LastUsed(freq, n, maxCode - 1))
    ensures node !in Used(freq, n) && freq[node] == 0
  {
    if node == 0 && maxCode >= 2 && freq[0] != 0 {
      TwoMembers(Used(freq, n), 0, maxCode);
    }
  }

  /** Putting one more symbol in use. */
  lemma ForceStep(f0: seq<nat>, h: seq<nat>, len: nat, freq: seq<nat>, stat: StaticDesc, node: nat, maxCode: int)
    requires stat.Valid() && stat.elems <= |freq| && Holds(h, len, Used(freq, stat.elems)) && len < 2 && len + 1 < |h|
    requires || (LastUsed(freq, stat.elems, maxCode) && maxCode >= 2 && node == 0)
             || (0 <= maxCode == node < 3 && LastUsed(freq, stat.elems, maxCode - 1))
    requires Forced(f0, freq, stat, true)
    ensures var f' := freq[node := 1];
            && Holds(h[len + 1 := node], len + 1, Used(f', stat.elems)) && LastUsed(f', stat.elems, maxCode)
            && Forced(f0, f', stat, true)
            && NumForced(f0, f', stat.elems) == NumForced(f0, freq, stat.elems) + 1
            && (stat.hasTree ==> Cost(stat, f', stat.lens, stat.elems) ==
                                 Cost(stat, freq, stat.lens, stat.elems) + stat.lens[node])
  {
    var n := stat.elems;
    HoldsEntries(h, len, Used(freq, n));
    FreeSymbol(freq, n, node, maxCode);
    HoldsAppend(h, len, Used(freq, n), node);
    assert Used(freq[node := 1], n) == Used(freq, n) + {node};
    if stat.hasTree {
      CostUpdate(stat, freq, stat.lens, node, 1, n);
    }
    ForceOne(f0, freq, node, n);
  }

  /** The queue's last entry is the root of the complete tree. */
  lemma OnlyRoot(h: seq<nat>, freq: seq<nat>, depth: seq<nat>, t: Shape, roots: set<nat>)
    requires Queue(h, 1, freq, depth, roots) && Forest(t, roots) && |t.pairs| > 0 && t.Root() in roots
    ensures ValidShape(t) && h[1] == t.Root()
  {
    hide Forest;
    HoldsEntries(h, 1, roots);
    OneRoot(t, roots);
  }

  lemma SortedFrame(h: seq<nat>, h': seq<nat>, t: Shape)
    requires Sorted(h, t) && |h'| == |h| && forall j :: HEAP_SIZE - 2 * |t.pairs| <= j < HEAP_SIZE ==> h'[j] == h[j]
    ensures Sorted(h', t)
  {
  }

  /** Nodes without a father were made before; some were leaves. */
  lemma RootsBelow(t: Shape, roots: set<nat>)
    requires Forest(t, roots)
    ensures forall x :: x in roots ==> x < t.Size() && (x < t.elems ==> x in t.leaves)
  {
    forall x | x in roots
      ensures x < t.Size() && (x < t.elems ==> x in t.leaves)
    {
      assert x in t.leaves + Made(t.elems, |t.pairs|);
    }
  }

  lemma JoinQueue(h: seq<nat>, h': seq<nat>, len: nat, freq: seq<nat>, depth: seq<nat>,
                  freq': seq<nat>, depth': seq<nat>, roots: set<nat>, node: nat)
    requires Queue(h, len, freq, depth, roots) && node < |freq| && node < |depth| && node !in roots
    requires |h'| == |h| && h'[1] == node && forall j :: 1 < j <= len ==> h'[j] == h[j]
    requires |freq'| == |freq| && |depth'| == |depth|
    requires forall x :: 0 <= x < |freq| && x != node ==> freq'[x] == freq[x]
    requires forall x :: 0 <= x < |depth| && x != node ==> depth'[x] == depth[x]
    ensures Nodes(h', len, freq', depth') && OrderedFrom(h', len, 2, freq', depth')
    ensures Holds(h', len, roots - {h[1]} + {node})
  {
    hide Smaller;
    QueueIgnores(h, len, freq, depth, roots, freq', depth', node);
    HoldsReplaceFirst(h, len, roots, node);
    var h2 := h[1 := node];
    assert h'[1..len + 1] == h2[1..len + 1];
    assert Nodes(h2, len, freq', depth') && OrderedFrom(h2, len, 2, freq', depth');
  }

  lemma Joined(t: Shape, roots: set<nat>, h: seq<nat>, h': seq<nat>, f: seq<nat>, f': seq<nat>,
               d: seq<nat>, d': seq<nat>, l: seq<nat>, l': seq<nat>, n: nat, m: nat)
    requires Forest(t, roots) && Greedy(t, f) && Ranked(t, f, d) && Fathers(t, l) && Sorted(h, t)
    requires n in roots && m in roots && n != m && n < |f| && m < |f|
    requires t.Size() < |f| == |l| && |h'| == HEAP_SIZE >= 2 * |t.pairs| + 2
    requires f' == f[t.Size() := (f[n] + f[m]) % 0x1_0000] && l' == l[n := t.Size()][m := t.Size()]
    requires t.Size() < |d| == |d'| && (forall x :: x in roots ==> x < |f| && x < |d|)
    requires d'[t.Size()] == (Max(d[n], d[m]) + 1) % 0x100
    requires forall x :: 0 <= x < |d| && x != t.Size() ==> d'[x] == d[x]
    requires forall x :: x in roots ==> Smaller(f, d, n, x) && (x != n ==> Smaller(f, d, m, x))
    requires forall j :: HEAP_SIZE - 2 * |t.pairs| <= j < HEAP_SIZE ==> h'[j] == h[j]
    requires h'[572 - 2 * |t.pairs|] == n && h'[571 - 2 * |t.pairs|] == m
    ensures Forest(Grow(t, n, m), roots - {n} - {m} + {t.Size()})
    ensures Greedy(Grow(t, n, m), f') && Fathers(Grow(t, n, m), l') && Sorted(h', Grow(t, n, m))
    ensures Ranked(Grow(t, n, m), f', d')
  {
    hide Forest, Greedy, Ranked, Fathers, Sorted;
    RankedGrow(t, roots, f, f', d, d', n, m);
    JoinTwo(t, roots, n, m);
    GreedyGrow(t, roots, f, f', n, m);
    FathersGrow(t, roots, l, l', n, m);
    SortedGrow(h, h', t, n, m);
  }

  lemma SortedGrow(h: seq<nat>, h': seq<nat>, t: Shape, n: nat, m: nat)
    requires Sorted(h, t) && |h'| == HEAP_SIZE >= 2 * |t.pairs| + 2
    requires forall j :: HEAP_SIZE - 2 * |t.pairs| <= j < HEAP_SIZE ==> h'[j] == h[j]
    requires h'[572 - 2 * |t.pairs|] == n && h'[571 - 2 * |t.pairs|] == m
    ensures Sorted(h', Grow(t, n, m))
  {
  }

  lemma RootIsLeast(h: seq<nat>, len: nat, freq: seq<nat>, depth: seq<nat>, roots: set<nat>)
    requires Queue(h, len, freq, depth, roots)
    ensures h[1] in roots && h[1] < |freq| && h[1] < |depth|
    ensures forall x :: x in roots ==> x < |freq| && x < |depth| && Smaller(freq, depth, h[1], x)
  {
    HoldsEntries(h, len, roots);
    forall x | x in roots
      ensures x < |freq| && x < |depth| && Smaller(freq, depth, h[1], x)
    {
      var j :| 1 <= j <= len && h[j] == x;
      HeapMinimum(h, len, j, freq, depth);
    }
  }
}
