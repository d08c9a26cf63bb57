/** The code lengths of a Huffman tree (gen_bitlen in zlib's trees.c). */
module BitLengths {
  import opened Arithmetic
  import opened HuffmanTree
  import opened LengthLimit
  import opened Sums
  import opened TreeBuild
  import opened TreeHeap
  import HuffmanCode
  import HuffmanOptimal

  /** The father of the node at position `q` of the sorted nodes. */
  function FatherAt(t: Shape, q: nat): nat
    requires q <= 572
  {
    t.elems + (572 - q) / 2
  }

  /** What the sorted nodes `h[hm..]` are: the root, and then every other node after its father. */
  ghost predicate InOrder(h: seq<nat>, hm: nat, t: Shape, dad: seq<nat>) {
    && |h| == HEAP_SIZE && hm == 572 - 2 * |t.pairs| && t.Size() <= |dad| && |t.pairs| > 0
    && h[hm] == t.Root()
    && (forall q :: hm < q < HEAP_SIZE ==> IsSon(h[q], q, t, dad))
    && (forall q, q' :: hm < q < q' < HEAP_SIZE ==> h[q] != h[q'])
    && (forall x :: x in Sons(t.pairs, |t.pairs|) ==> exists q :: hm < q < HEAP_SIZE && h[q] == x)
  }

  ghost predicate IsSon(x: nat, q: nat, t: Shape, dad: seq<nat>)
    requires q <= 572
  {
    && x < t.Root() <= |dad| && dad[x] == FatherAt(t, q) && x < FatherAt(t, q) <= t.Root()
    && x in Sons(t.pairs, |t.pairs|) && (x in t.leaves <==> x < t.elems)
  }

  lemma SortedSons(h: seq<nat>, hm: nat, t: Shape, dad: seq<nat>, q: nat)
    requires ValidShape(t) && Fathers(t, dad) && Sorted(h, t) && hm == 572 - 2 * |t.pairs| && hm < q < HEAP_SIZE
    ensures IsSon(h[q], q, t, dad)
  {
    var k := (572 - q) / 2;
    assert k < |t.pairs| && (q == 572 - 2 * k || q == 571 - 2 * k);
    assert Joins(t, k) && FatherOf(t, dad, k);
    SonsAreNodes(t, k);
    assert h[q] in t.leaves + Made(t.elems, |t.pairs| - 1);
  }

  lemma {:induction false} SonPosition(h: seq<nat>, hm: nat, t: Shape, x: nat, k: nat) returns (q: nat)
    requires Sorted(h, t) && hm == 572 - 2 * |t.pairs| && k <= |t.pairs| && x in Sons(t.pairs, k)
    ensures hm < q < HEAP_SIZE && h[q] == x
  {
    if x == t.pairs[k - 1].0 {
      q := 572 - 2 * (k - 1);
    } else if x == t.pairs[k - 1].1 {
      q := 571 - 2 * (k - 1);
    } else {
      q := SonPosition(h, hm, t, x, k - 1);
    }
  }

  /** Two places have two different nodes: another father's son, or the same father's other son. */
  lemma SonsDiffer(h: seq<nat>, hm: nat, t: Shape, dad: seq<nat>, q: nat, q': nat)
    requires ValidShape(t) && Sorted(h, t) && hm == 572 - 2 * |t.pairs| && |h| == HEAP_SIZE && hm < q < q' < HEAP_SIZE
    requires IsSon(h[q], q, t, dad) && IsSon(h[q'], q', t, dad)
    ensures h[q] != h[q']
  {
    if FatherAt(t, q) == FatherAt(t, q') {
      var k := (572 - q) / 2;
      assert Joins(t, k);
      assert q == 571 - 2 * k && q' == 572 - 2 * k;
    }
  }

  lemma SortedInOrder(h: seq<nat>, hm: nat, t: Shape, dad: seq<nat>)
    requires ValidShape(t) && Fathers(t, dad) && Sorted(h, t) && hm == 572 - 2 * |t.pairs| && h[hm] == t.Root()
    ensures InOrder(h, hm, t, dad)
  {
    forall q | hm < q < HEAP_SIZE
      ensures IsSon(h[q], q, t, dad)
    {
      SortedSons(h, hm, t, dad, q);
    }
    forall q, q' | hm < q < q' < HEAP_SIZE
      ensures h[q] != h[q']
    {
      SonsDiffer(h, hm, t, dad, q, q');
    }
    forall x | x in Sons(t.pairs, |t.pairs|)
      ensures exists q :: hm < q < HEAP_SIZE && h[q] == x
    {
      var q := SonPosition(h, hm, t, x, |t.pairs|);
    }
  }

  /** The father of a son comes before it. */
  lemma FatherBefore(h: seq<nat>, hm: nat, t: Shape, dad: seq<nat>, q: nat) returns (q': nat)
    requires ValidShape(t) && InOrder(h, hm, t, dad) && hm < q < HEAP_SIZE
    ensures hm <= q' < q && h[q'] == FatherAt(t, q)
  {
    var f := FatherAt(t, q);
    assert IsSon(h[q], q, t, dad);
    if f == t.Root() {
      q' := hm;
    } else {
      assert f in Made(t.elems, |t.pairs| - 1);
      q' :| hm < q' < HEAP_SIZE && h[q'] == f;
      assert IsSon(h[q'], q', t, dad);
    }
  }

  // ---------- the first pass ----------

  /** What the first pass has settled: the cut nodes and the leaves' lengths and frequencies. */
  datatype Pass = Pass(cut: seq<int>, lens: seq<nat>, freq: seq<nat>)

  ghost predicate SettledAt(x: nat, q: nat, t: Shape, limit: nat, dl: seq<nat>, fc: seq<nat>, p: Pass)
    requires q <= 572
  {
    && x < |p.cut| && |p.cut| <= |dl| && |p.cut| <= |fc| && FatherAt(t, q) < |dl| && |p.lens| == |p.freq| == t.elems
    && dl[x] == Min(dl[FatherAt(t, q)] + 1, limit)
    && p.cut[x] == (if dl[FatherAt(t, q)] == limit then 1 else 0)
    && (x < t.elems ==> p.lens[x] == dl[x] && p.freq[x] == fc[x])
  }

  ghost predicate OpenAt(x: nat, q: nat, t: Shape, dl: seq<nat>, p: Pass)
    requires q <= 572
  {
    && x < |p.cut| <= |dl| && |p.lens| == |p.freq| == t.elems
    && dl[x] == FatherAt(t, q) && p.cut[x] == 0 && (x < t.elems ==> p.lens[x] == p.freq[x] == 0)
  }

  /** The nodes before position `hp` are settled, the others are not. */
  ghost predicate Passed(h: seq<nat>, hm: nat, hp: nat, t: Shape, limit: nat, dl: seq<nat>, fc: seq<nat>, p: Pass) {
    && hm < hp <= HEAP_SIZE == |h| && |p.cut| == t.Size() && t.Size() <= |dl| && t.Size() <= |fc|
    && |p.lens| == |p.freq| == t.elems
    && 0 <= t.Root() && dl[t.Root()] == 0
    && (forall q :: hm < q < hp ==> SettledAt(h[q], q, t, limit, dl, fc, p))
    && (forall q :: hp <= q < HEAP_SIZE ==> OpenAt(h[q], q, t, dl, p))
    && (forall x :: 0 <= x < t.elems && x !in t.leaves ==> p.lens[x] == p.freq[x] == 0)
  }

  /** Settling one node. */
  function Settle(p: Pass, n: nat, elems: nat, bits: nat, freq: nat, cut: bool): Pass
    requires n < |p.cut| && |p.lens| == |p.freq| == elems
  {
    Pass(p.cut[n := if cut then 1 else 0],
         if n < elems then p.lens[n := bits] else p.lens,
         if n < elems then p.freq[n := freq] else p.freq)
  }

  /** Settling node `n` does not disturb a node whose father is another one. */
  lemma SettledKept(x: nat, q: nat, t: Shape, limit: nat, dl: seq<nat>, fc: seq<nat>, p: Pass, n: nat, bits: nat,
      cut: bool)
    requires q <= 572 && SettledAt(x, q, t, limit, dl, fc, p) && n < |p.cut|
    requires x != n && FatherAt(t, q) != n
    ensures SettledAt(x, q, t, limit, dl[n := bits], fc, Settle(p, n, t.elems, bits, fc[n], cut))
  {
  }

  lemma OpenKept(x: nat, q: nat, t: Shape, dl: seq<nat>, p: Pass, n: nat, bits: nat, f: nat, cut: bool)
    requires q <= 572 && OpenAt(x, q, t, dl, p) && n < |p.cut| && x != n
    ensures OpenAt(x, q, t, dl[n := bits], Settle(p, n, t.elems, bits, f, cut))
  {
  }

  /** The father of the next node is settled. */
  lemma FatherSettled(h: seq<nat>, hm: nat, hp: nat, t: Shape, dad: seq<nat>, limit: nat, dl: seq<nat>, fc: seq<nat>,
      p: Pass)
    requires ValidShape(t) && InOrder(h, hm, t, dad) && Passed(h, hm, hp, t, limit, dl, fc, p) && hp < HEAP_SIZE
    requires limit >= 1
    ensures h[hp] < |p.cut| && FatherAt(t, hp) < |dl| && dl[FatherAt(t, hp)] <= limit && h[hp] < FatherAt(t, hp)
    ensures h[hp] < t.Root() && dl[h[hp]] == FatherAt(t, hp) && IsSon(h[hp], hp, t, dad)
    ensures |p.lens| == |p.freq| == t.elems && p.cut[h[hp]] == 0
              && (h[hp] < t.elems ==> p.lens[h[hp]] == p.freq[h[hp]] == 0)
  {
    assert IsSon(h[hp], hp, t, dad) && OpenAt(h[hp], hp, t, dl, p);
    var q0 := FatherBefore(h, hm, t, dad, hp);
    if q0 > hm {
      assert SettledAt(h[q0], q0, t, limit, dl, fc, p);
    }
  }

  lemma PassStep(h: seq<nat>, hm: nat, hp: nat, t: Shape, dad: seq<nat>, limit: nat, dl: seq<nat>, fc: seq<nat>,
      p: Pass,
                 bits: nat, cut: bool)
    requires ValidShape(t) && InOrder(h, hm, t, dad) && Passed(h, hm, hp, t, limit, dl, fc, p) && hp < HEAP_SIZE
    requires limit >= 1 && FatherAt(t, hp) < |dl| && h[hp] < |p.cut|
    requires bits == Min(dl[FatherAt(t, hp)] + 1, limit) && (cut <==> dl[FatherAt(t, hp)] == limit)
    ensures Passed(h, hm, hp + 1, t, limit, dl[h[hp] := bits], fc, Settle(p, h[hp], t.elems, bits, fc[h[hp]], cut))
  {
    hide Settle, SettledAt, OpenAt, IsSon;
    var n := h[hp];
    FatherSettled(h, hm, hp, t, dad, limit, dl, fc, p);
    var dl', p' := dl[n := bits], Settle(p, n, t.elems, bits, fc[n], cut);
    forall q | hm < q < hp
      ensures SettledAt(h[q], q, t, limit, dl', fc, p')
    {
      assert IsSon(h[q], q, t, dad);
      SettledKept(h[q], q, t, limit, dl, fc, p, n, bits, cut);
    }
    forall q | hp + 1 <= q < HEAP_SIZE
      ensures OpenAt(h[q], q, t, dl', p')
    {
      OpenKept(h[q], q, t, dl, p, n, bits, fc[n], cut);
    }
    NewlySettled(n, hp, t, limit, dl, fc, p, bits, cut);
  }

  lemma NewlySettled(n: nat, q: nat, t: Shape, limit: nat, dl: seq<nat>, fc: seq<nat>, p: Pass, bits: nat, cut: bool)
    requires q <= 572 && n < |p.cut| <= |dl| && |p.cut| <= |fc| && |p.lens| == |p.freq| == t.elems
              && n < FatherAt(t, q) < |dl|
    requires bits == Min(dl[FatherAt(t, q)] + 1, limit) && (cut <==> dl[FatherAt(t, q)] == limit)
    ensures SettledAt(n, q, t, limit, dl[n := bits], fc, Settle(p, n, t.elems, bits, fc[n], cut))
    ensures var p' := Settle(p, n, t.elems, bits, fc[n], cut);
            && |p'.cut| == |p.cut| && |p'.lens| == |p'.freq| == t.elems
            && forall x :: 0 <= x < t.elems && x != n ==> p'.lens[x] == p.lens[x] && p'.freq[x] == p.freq[x]
  {
  }

  /** Everything that the first pass adds up. */
  datatype Tally = Tally(overflow: int, bl: seq<nat>, optBits: int, staticBits: int)

  ghost predicate Tallied(t: Shape, stat: StaticDesc, p: Pass, y: Tally) {
    && |p.cut| == t.Size() && |p.lens| == |p.freq| == t.elems == stat.elems && |y.bl| == 16 && stat.Valid()
    && y.overflow == SumIn(p.cut, Sons(t.pairs, |t.pairs|))
    && y.bl[0] == 0 && (forall l :: 1 <= l <= 15 ==> y.bl[l] == HuffmanCode.Total(p.lens, l))
    && y.optBits == Cost(stat, p.freq, p.lens, t.elems)
    && y.staticBits == if stat.hasTree then Cost(stat, p.freq, stat.lens, t.elems) else 0
  }

  lemma {:induction false} CountUpdate(lens: seq<nat>, x: nat, v: nat, l: nat, n: nat)
    requires n <= |lens| && x < |lens|
    ensures HuffmanCode.Count(lens[x := v], l, n) + (if x < n && lens[x] == l then 1 else 0) ==
            HuffmanCode.Count(lens, l, n) + (if x < n && v == l then 1 else 0)
  {
    if n > 0 {
      CountUpdate(lens, x, v, l, n - 1);
    }
  }

  /** Symbols that are not used cost nothing, whatever their length. */
  lemma {:induction false} CostLens(stat: StaticDesc, freq: seq<nat>, lens: seq<nat>, lens': seq<nat>, n: nat)
    requires n <= |freq| && n <= |lens| && n <= |lens'|
    requires forall x :: 0 <= x < n && freq[x] != 0 ==> lens[x] == lens'[x]
    ensures Cost(stat, freq, lens, n) == Cost(stat, freq, lens', n)
  {
    if n > 0 {
      CostLens(stat, freq, lens, lens', n - 1);
    }
  }

  lemma TallyStep(t: Shape, stat: StaticDesc, p: Pass, y: Tally, n: nat, bits: nat, f: nat, cut: bool, y': Tally)
    requires Tallied(t, stat, p, y) && n in Sons(t.pairs, |t.pairs|) && n < |p.cut| && p.cut[n] == 0
    requires n < t.elems ==> p.lens[n] == p.freq[n] == 0
    requires 1 <= bits <= 15
    requires y'.overflow == y.overflow + if cut then 1 else 0
    requires n >= t.elems ==> y'.bl == y.bl && y'.optBits == y.optBits && y'.staticBits == y.staticBits
    requires n < t.elems ==>
              y'.bl == y.bl[bits := y.bl[bits] + 1] && y'.optBits == y.optBits + f * (bits + stat.Extra(n))
    requires n < t.elems && stat.hasTree ==> y'.staticBits == y.staticBits + f * (stat.lens[n] + stat.Extra(n))
    requires n < t.elems && !stat.hasTree ==> y'.staticBits == y.staticBits
    ensures Tallied(t, stat, Settle(p, n, t.elems, bits, f, cut), y')
  {
    var p', sons := Settle(p, n, t.elems, bits, f, cut), Sons(t.pairs, |t.pairs|);
    SumToUpdate(p.cut, p'.cut, sons, n, |p.cut|);
    if n < t.elems {
      forall l | 1 <= l <= 15
        ensures y'.bl[l] == HuffmanCode.Total(p'.lens, l)
      {
        CountUpdate(p.lens, n, bits, l, t.elems);
      }
      CostLens(stat, p.freq, p.lens, p'.lens, t.elems);
      CostUpdate(stat, p.freq, p'.lens, n, f, t.elems);
      if stat.hasTree {
        CostUpdate(stat, p.freq, stat.lens, n, f, t.elems);
      }
    }
  }

  /** Unused symbols have length 0 and frequency 0. */
  predicate UnusedZero(t: Shape, dl: seq<nat>, fc: seq<nat>)
    requires t.elems <= |dl| && t.elems <= |fc|
  {
    forall x :: 0 <= x < t.elems && x !in t.leaves ==> dl[x] == 0 && fc[x] == 0
  }

  /** A son of the tree after the first pass. */
  lemma PassedSon(h: seq<nat>, hm: nat, t: Shape, dad: seq<nat>, limit: nat, dl: seq<nat>, fc: seq<nat>, p: Pass,
      x: nat)
    requires InOrder(h, hm, t, dad) && Passed(h, hm, HEAP_SIZE, t, limit, dl, fc, p)
    requires x in Sons(t.pairs, |t.pairs|)
    ensures x < t.Root() && p.cut[x] == Cut(t, dad, dl[..t.Size()], limit)[x]
    ensures x < t.elems ==> p.lens[x] == dl[x] && p.freq[x] == fc[x]
    ensures dl[x] <= limit && (limit >= 1 ==> dl[x] >= 1)
  {
    var q :| hm < q < HEAP_SIZE && h[q] == x;
    assert SettledAt(h[q], q, t, limit, dl, fc, p) && IsSon(h[q], q, t, dad);
  }

  lemma PassedPair(h: seq<nat>, hm: nat, t: Shape, dad: seq<nat>, limit: nat, dl: seq<nat>, fc: seq<nat>, p: Pass,
      k: nat)
    requires Sorted(h, t) && InOrder(h, hm, t, dad) && Passed(h, hm, HEAP_SIZE, t, limit, dl, fc, p)
    requires k < |t.pairs|
    ensures SonsBelow(t, dl[..t.Size()], limit, k)
  {
    hide InOrder, Passed;
    FirstPosition(h, hm, t, dad);
    PassedAt(h, hm, t, dad, limit, dl, fc, p, 572 - 2 * k);
    PassedAt(h, hm, t, dad, limit, dl, fc, p, 571 - 2 * k);
  }

  lemma FirstPosition(h: seq<nat>, hm: nat, t: Shape, dad: seq<nat>)
    requires InOrder(h, hm, t, dad)
    ensures hm == 572 - 2 * |t.pairs|
  {
  }

  lemma PassedAt(h: seq<nat>, hm: nat, t: Shape, dad: seq<nat>, limit: nat, dl: seq<nat>, fc: seq<nat>, p: Pass, q: nat)
    requires InOrder(h, hm, t, dad) && Passed(h, hm, HEAP_SIZE, t, limit, dl, fc, p) && hm < q <= 572
    ensures t.Size() <= |dl| && h[q] < t.Root() && FatherAt(t, q) < t.Size()
    ensures dl[h[q]] == Min(dl[FatherAt(t, q)] + 1, limit)
  {
    assert SettledAt(h[q], q, t, limit, dl, fc, p) && IsSon(h[q], q, t, dad);
  }

  /** After the first pass the lengths and frequencies of all symbols have been seen. */
  lemma PassedSymbols(h: seq<nat>, hm: nat, t: Shape, dad: seq<nat>, limit: nat, dl: seq<nat>, fc: seq<nat>, p: Pass)
    requires ValidShape(t) && InOrder(h, hm, t, dad) && Passed(h, hm, HEAP_SIZE, t, limit, dl, fc, p)
    requires UnusedZero(t, dl, fc)
    ensures p.lens == dl[..t.elems] && p.freq == fc[..t.elems]
  {
    hide InOrder, Cut;
    forall x: nat | x < t.elems
      ensures p.lens[x] == dl[x] && p.freq[x] == fc[x]
    {
      if x in t.leaves {
        assert x in Sons(t.pairs, |t.pairs|);
        PassedSon(h, hm, t, dad, limit, dl, fc, p, x);
      }
    }
  }

  /** After the first pass the lengths are the levels in the tree, limited to `limit`. */
  lemma PassedLevels(h: seq<nat>, hm: nat, t: Shape, dad: seq<nat>, limit: nat, dl: seq<nat>, fc: seq<nat>, p: Pass)
    requires ValidShape(t) && Sorted(h, t) && InOrder(h, hm, t, dad) && Passed(h, hm, HEAP_SIZE, t, limit, dl, fc, p)
    requires UnusedZero(t, dl, fc) && t.Size() <= |dad|
    ensures Levels(t, dl[..t.Size()], limit)
    ensures SumIn(p.cut, Sons(t.pairs, |t.pairs|)) == SumIn(Cut(t, dad, dl[..t.Size()], limit),
              Sons(t.pairs, |t.pairs|))
  {
    hide SonsBelow, Cut, InOrder, Sorted, SettledAt, OpenAt;
    var c, sons := dl[..t.Size()], Sons(t.pairs, |t.pairs|);
    forall x: nat | x in sons
      ensures x < t.Size() && p.cut[x] == Cut(t, dad, c, limit)[x] && c[x] <= limit
    {
      PassedSon(h, hm, t, dad, limit, dl, fc, p, x);
    }
    forall x: nat | x < |c| && x !in sons
      ensures c[x] <= limit
    {
      if x != t.Root() {
        assert x !in Made(t.elems, |t.pairs| - 1);
      }
    }
    forall k | 0 <= k < |t.pairs|
      ensures SonsBelow(t, c, limit, k)
    {
      PassedPair(h, hm, t, dad, limit, dl, fc, p, k);
    }
    SumToEqual(p.cut, Cut(t, dad, c, limit), Sons(t.pairs, |t.pairs|), |p.cut|);
  }

  /** The tree that was built, as gen_bitlen finds it: the used symbols are the leaves. */
  ghost predicate Built(s: DeflateState, fc: array<nat>, dl: array<nat>, stat: StaticDesc, maxCode: int, t: Shape)
    reads s, s.heap, fc, dl
  {
    && s.Valid() && s.TreeArrays(fc, dl) && stat.Valid()
    && ValidShape(t) && t.elems == stat.elems && t.Size() <= fc.Length
    && Sorted(s.heap[..], t) && s.heapMax == 572 - 2 * |t.pairs| && s.heap[s.heapMax] == t.Root()
    && -1 <= maxCode < stat.elems && (forall x :: x in t.leaves ==> x <= maxCode)
    && (forall x :: 0 <= x < t.elems && x !in t.leaves ==> fc[x] == 0)
  }

  /** Counts the leaf `n` with a code of `bits` bits. */
  method CountLeaf(s: DeflateState, fc: array<nat>, stat: StaticDesc, n: nat, bits: nat)
    requires s.Valid() && stat.Valid() && n < stat.elems && n < fc.Length && bits <= 15 && fc != s.blCount
    modifies s.blCount, s`optLen, s`staticLen
    ensures s.blCount[..] == old(s.blCount[..])[bits := old(s.blCount[bits]) + 1]
    ensures s.optLen == old(s.optLen) + fc[n] * (bits + stat.Extra(n))
    ensures s.staticLen == old(s.staticLen) + if stat.hasTree then fc[n] * (stat.lens[n] + stat.Extra(n)) else 0
  {
    s.blCount[bits] := s.blCount[bits] + 1;
    var xbits := 0;
    if n >= stat.base {
      xbits := stat.extra[n - stat.base];
    }
    var f := fc[n];
    s.optLen := s.optLen + f * (bits + xbits);
    if stat.hasTree {
      s.staticLen := s.staticLen + f * (stat.lens[n] + xbits);
    }
  }

  method ClearCounts(s: DeflateState)
    requires s.Valid()
    modifies s.blCount
    ensures forall l :: 0 <= l <= 15 ==> s.blCount[l] == 0
  {
    var bits: nat := 0;
    while bits <= 15
      invariant bits <= 16 && forall l :: 0 <= l < bits ==> s.blCount[l] == 0
    {
      s.blCount[bits] := 0;
      bits := bits + 1;
    }
  }

  /** The state of the first pass before it comes to position `hp`. */
  ghost predicate InPass(s: DeflateState, fc: array<nat>, dl: array<nat>, stat: StaticDesc, maxCode: int,
                         t: Shape, dad: seq<nat>, hp: nat, p: Pass, y: Tally)
    reads s, s.heap, s.blCount, fc, dl
  {
    && Built(s, fc, dl, stat, maxCode, t) && InOrder(s.heap[..], s.heapMax, t, dad) && s.heapMax < hp <= HEAP_SIZE
    && Passed(s.heap[..], s.heapMax, hp, t, stat.limit, dl[..], fc[..], p)
    && UnusedZero(t, dl[..], fc[..]) && Tallied(t, stat, p, y) && y.bl == s.blCount[..]
    && Codes(y.bl, 15) == LeavesIn(s.heap[..], s.heapMax + 1, hp, maxCode)
  }

  /** How many of the nodes from position `lo` to position `hi` are leaves. */
  function LeavesIn(h: seq<nat>, lo: nat, hi: nat, maxCode: int): nat
    requires lo <= hi <= |h|
  {
    if lo == hi then 0 else LeavesIn(h, lo, hi - 1, maxCode) + if h[hi - 1] <= maxCode then 1 else 0
  }

  /** Puts the next node one level below its father, but not beyond the limit. */
  method SettleNode(s: DeflateState, fc: array<nat>, dl: array<nat>, stat: StaticDesc, maxCode: int, hp: nat,
      overflow: int,
                    ghost t: Shape, ghost dad: seq<nat>, ghost p: Pass, ghost y: Tally)
    returns (overflow': int, ghost p': Pass, ghost y': Tally)
    requires InPass(s, fc, dl, stat, maxCode, t, dad, hp, p, y) && hp < HEAP_SIZE && y.overflow == overflow
    modifies dl, s.blCount, s`optLen, s`staticLen
    ensures InPass(s, fc, dl, stat, maxCode, t, dad, hp + 1, p', y') && y'.overflow == overflow'
    ensures y'.optBits - y.optBits == s.optLen - old(s.optLen)
    ensures y'.staticBits - y.staticBits == s.staticLen - old(s.staticLen)
  {
    hide Passed, Tallied, Settle, InOrder, ValidShape, Sorted, UnusedZero, Codes, Weight, Pow2;
    ghost var h, f, hm, l0 := s.heap[..], fc[..], s.heapMax, dl[..];
    var n := s.heap[hp];
    overflow' := overflow;
    FatherSettled(h, hm, hp, t, dad, stat.limit, l0, f, p);
    var bits: nat := dl[dl[n]] + 1;
    ghost var cut := bits > stat.limit;
    if bits > stat.limit {
      bits := stat.limit;
      overflow' := overflow + 1;
    }
    dl[n] := bits;
    if n <= maxCode {
      AddCode(s.blCount[..], bits, 1, 15, 15);
      CountLeaf(s, fc, stat, n, bits);
    }
    assert dl[..] == l0[n := bits] && s.heap[..] == h && fc[..] == f;
    y' := Tally(overflow', s.blCount[..], y.optBits + s.optLen - old(s.optLen),
        y.staticBits + s.staticLen - old(s.staticLen));
    PassStep(h, hm, hp, t, dad, stat.limit, l0, f, p, bits, cut);
    TallyStep(t, stat, p, y, n, bits, f[n], cut, y');
    UnusedKept(t, l0, f, n, bits);
    p' := Settle(p, n, t.elems, bits, f[n], cut);
  }

  /** The first pass: every node one level below its father, but no level beyond the limit. */
  method FirstPass(s: DeflateState, fc: array<nat>, dl: array<nat>, stat: StaticDesc, maxCode: int, ghost t: Shape)
    returns (overflow: int, ghost p: Pass, ghost y: Tally)
    requires Built(s, fc, dl, stat, maxCode, t) && Fathers(t, dl[..]) && UnusedZero(t, dl[..], fc[..])
    modifies dl, s.blCount, s`optLen, s`staticLen
    ensures InPass(s, fc, dl, stat, maxCode, t, old(dl[..]), HEAP_SIZE, p, y)
    ensures y == Tally(overflow, s.blCount[..], s.optLen - old(s.optLen), s.staticLen - old(s.staticLen))
  {
    hide Passed, Tallied, InOrder, Fathers, ValidShape, Sorted, UnusedZero;
    ghost var dad, h, f, hm := dl[..], s.heap[..], fc[..], s.heapMax;
    SortedInOrder(h, hm, t, dad);
    ClearCounts(s);
    dl[s.heap[s.heapMax]] := 0;
    overflow := 0;
    var hp := s.heapMax + 1;
    p := Pass(seq(t.Size(), x => 0), seq(t.elems, x => 0), seq(t.elems, x => 0));
    y := Tally(0, s.blCount[..], 0, 0);
    PassStart(h, hm, t, dad, stat, dl[..], f, p, y.bl);
    UnusedKept(t, dad, f, t.Root(), 0);
    NoShortCodes(y.bl, 15, 15);
    assert s.heap[..] == h;
    while hp < HEAP_SIZE
      invariant hp <= HEAP_SIZE && InPass(s, fc, dl, stat, maxCode, t, dad, hp, p, y)
      invariant y == Tally(overflow, s.blCount[..], s.optLen - old(s.optLen), s.staticLen - old(s.staticLen))
    {
      overflow, p, y := SettleNode(s, fc, dl, stat, maxCode, hp, overflow, t, dad, p, y);
      hp := hp + 1;
    }
  }

  lemma UnusedKept(t: Shape, dl: seq<nat>, fc: seq<nat>, n: nat, bits: nat)
    requires t.elems <= |dl| && t.elems <= |fc| && UnusedZero(t, dl, fc) && n < |dl| && (n < t.elems ==> n in t.leaves)
    ensures UnusedZero(t, dl[n := bits], fc)
  {
  }

  lemma PassStart(h: seq<nat>, hm: nat, t: Shape, dad: seq<nat>, stat: StaticDesc, dl: seq<nat>, fc: seq<nat>, p: Pass,
                  bl: seq<nat>)
    requires InOrder(h, hm, t, dad) && stat.Valid() && t.elems == stat.elems && t.Size() <= |fc|
              && 0 <= t.Root() < |dad|
    requires dl == dad[t.Root() := 0] && |bl| == 16 && forall l :: 0 <= l < 16 ==> bl[l] == 0
    requires p == Pass(seq(t.Size(), x => 0), seq(t.elems, x => 0), seq(t.elems, x => 0))
    ensures Passed(h, hm, hm + 1, t, stat.limit, dl, fc, p)
    ensures Tallied(t, stat, p, Tally(0, bl, 0, 0))
  {
    forall q | hm + 1 <= q < HEAP_SIZE
      ensures OpenAt(h[q], q, t, dl, p)
    {
      assert IsSon(h[q], q, t, dad);
    }
    SumToBounds(p.cut, Sons(t.pairs, |t.pairs|), |p.cut|, 0, 0);
    forall l | 1 <= l <= 15
      ensures HuffmanCode.Total(p.lens, l) == 0
    {
      NoneOfLength(p.lens, l, t.elems);
    }
    CostNothing(stat, p.freq, p.lens, t.elems);
    if stat.hasTree {
      CostNothing(stat, p.freq, stat.lens, t.elems);
    }
  }

  lemma {:induction false} NoneOfLength(lens: seq<nat>, l: nat, n: nat)
    requires n <= |lens| && forall x :: 0 <= x < n ==> lens[x] != l
    ensures HuffmanCode.Count(lens, l, n) == 0
  {
    if n > 0 {
      NoneOfLength(lens, l, n - 1);
    }
  }

  lemma {:induction false} CostNothing(stat: StaticDesc, freq: seq<nat>, lens: seq<nat>, n: nat)
    requires n <= |freq| && n <= |lens| && forall x :: 0 <= x < n ==> freq[x] == 0
    ensures Cost(stat, freq, lens, n) == 0
  {
    if n > 0 {
      CostNothing(stat, freq, lens, n - 1);
    }
  }

  // ---------- what the first pass leaves to repair ----------

  /** The length counts of the first `n` symbols. */
  function Counts(lens: seq<nat>, n: nat): (bl: seq<nat>)
    requires n <= |lens|
    ensures |bl| == 16
  {
    seq(16, l requires 0 <= l < 16 => if l == 0 then 0 else HuffmanCode.Count(lens, l, n))
  }

  lemma CountsStep(lens: seq<nat>, n: nat)
    requires n < |lens| && lens[n] <= 15
    ensures Counts(lens, n + 1) ==
            if lens[n] == 0 then Counts(lens, n) else Counts(lens, n)[lens[n] := Counts(lens, n)[lens[n]] + 1]
  {
  }

  /** The counts of the leaves' levels weigh what the leaves' shares add up to. */
  lemma {:induction false} LeafWeights(c: seq<nat>, leaves: set<nat>, elems: nat, limit: nat, n: nat)
    requires n <= elems <= |c| && 1 <= limit <= 15 && forall x :: 0 <= x < |c| ==> c[x] <= limit
    requires forall x :: 0 <= x < elems ==> (x in leaves <==> c[x] >= 1)
    ensures Weight(Counts(c[..elems], n), limit, limit) == SumTo(Shares(c, limit), leaves, n)
    ensures Counts(c[..elems], n)[limit] == SumTo(At(c, limit), leaves, n)
    ensures Codes(Counts(c[..elems], n), limit) <= n
  {
    hide Pow2, Weight, Codes;
    var lens := c[..elems];
    if n == 0 {
      NoShortCodes(Counts(lens, 0), limit, limit);
    } else {
      LeafWeights(c, leaves, elems, limit, n - 1);
      CountsStep(lens, n - 1);
      if lens[n - 1] >= 1 {
        AddCode(Counts(lens, n - 1), lens[n - 1], 1, limit, limit);
      }
    }
  }

  /** What the repair needs: the weight exceeds the code space by half the overflow. */
  lemma OverflowIsExcess(t: Shape, dad: seq<nat>, c: seq<nat>, stat: StaticDesc, bl: seq<nat>, overflow: int)
    requires ValidShape(t) && stat.Valid() && t.elems == stat.elems && Levels(t, c, stat.limit) && Fathers(t, dad)
    requires forall x :: 0 <= x < t.elems ==> (x in t.leaves <==> c[x] >= 1)
    requires overflow == SumIn(Cut(t, dad, c, stat.limit), Sons(t.pairs, |t.pairs|))
    requires bl == Counts(c[..t.elems], t.elems)
    ensures 2 * Weight(bl, stat.limit, stat.limit) == 2 * Pow2(stat.limit) + overflow
    ensures overflow >= 0 && 2 * bl[stat.limit] >= overflow && Codes(bl, stat.limit) <= Pow2(stat.limit)
    ensures overflow > 0 ==> 2 * bl[stat.limit] > overflow
    ensures overflow == 2 * FullFathers(t, c, stat.limit)
  {
    hide Pow2, Weight, Codes, Levels, ValidShape, Fathers, Cut;
    var limit := stat.limit;
    LevelFacts(t, c, limit);
    LeafWeights(c, t.leaves, t.elems, limit, t.elems);
    SumToBeyond(Shares(c, limit), t.leaves, t.elems, |c|);
    SumToBeyond(At(c, limit), t.leaves, t.elems, |c|);
    LeafShares(t, c, limit);
    CutNodes(t, dad, c, limit);
    LeavesAtLimit(t, dad, c, limit);
  }

  lemma LevelFacts(t: Shape, c: seq<nat>, limit: nat)
    requires ValidShape(t) && Levels(t, c, limit)
    ensures |c| == t.Size() >= t.elems && (forall x :: 0 <= x < |c| ==> c[x] <= limit) && forall x :: x in t.leaves ==>
              x < t.elems
  {
  }

  /** With no father at the limit no level was cut. */
  lemma NothingCut(t: Shape, c: seq<nat>, limit: nat)
    requires ValidShape(t) && Levels(t, c, limit) && FullFathers(t, c, limit) == 0
    ensures HuffmanOptimal.Depths(t, c)
  {
    hide ValidShape;
    var v, all := At(c, limit), Made(t.elems, |t.pairs|);
    forall k | 0 <= k < |t.pairs|
      ensures HuffmanOptimal.OneBelow(t, c, k)
    {
      var x := t.elems + k;
      assert SonsBelow(t, c, limit, k);
      SumInsert(v, all - {x}, x);
      assert all - {x} + {x} == all;
      SumToBounds(v, all - {x}, |v|, 0, 1);
    }
  }

  /** A cut level means that the tree is too deep. */
  lemma SomethingCut(t: Shape, c: seq<nat>, limit: nat)
    requires Levels(t, c, limit) && FullFathers(t, c, limit) != 0
    ensures Deep(t, limit)
  {
    var v := At(c, limit);
    if !exists k: nat :: FullAt(t, c, limit, k) {
      forall x: nat | x < |v| && x in Made(t.elems, |t.pairs|)
        ensures v[x] == 0
      {
        var k: nat := x - t.elems;
        assert !FullAt(t, c, limit, k);
      }
      SumToBounds(v, Made(t.elems, |t.pairs|), |v|, 0, 0);
    }
  }

  /** A length that is counted is some symbol's. */
  lemma {:induction false} SomeOfLength(lens: seq<nat>, l: nat, n: nat) returns (x: nat)
    requires n <= |lens| && HuffmanCode.Count(lens, l, n) > 0
    ensures x < n && lens[x] == l
  {
    if lens[n - 1] == l {
      x := n - 1;
    } else {
      x := SomeOfLength(lens, l, n - 1);
    }
  }

  // ---------- the second pass ----------

  /** The counts `bl` say how many codes there are of each length. */
  ghost predicate Tells(bl: seq<nat>, lens: seq<nat>) {
    |bl| == 16 && bl[0] == 0 && forall l :: 1 <= l <= 15 ==> bl[l] == HuffmanCode.Total(lens, l)
  }

  /** The second pass has given out all lengths above `bits`, and all but `n` codes of length `bits`. */
  ghost predicate GivenOut(given: seq<nat>, bl: seq<nat>, bits: nat, n: nat) {
    && |bl| == 16 && bits <= 15
    && (forall l :: bits < l <= 15 ==> HuffmanCode.Total(given, l) == bl[l])
    && (bits > 0 ==> HuffmanCode.Total(given, bits) + n == bl[bits])
    && (forall l :: 1 <= l < bits ==> HuffmanCode.Total(given, l) == 0)
  }

  /** The leaves from position `hp` on have their new lengths, the others none. */
  ghost predicate Given(h: seq<nat>, hm: nat, hp: nat, maxCode: int, dl: seq<nat>, given: seq<nat>, bits: nat,
      limit: nat) {
    && hm < hp <= |h| && -1 <= maxCode < |given| <= |dl|
    && (forall q :: hp <= q < |h| && h[q] <= maxCode ==> 1 <= given[h[q]] && bits <= given[h[q]] == dl[h[q]] <= limit)
    && (forall q :: hm < q < hp && h[q] <= maxCode ==> given[h[q]] == 0)
    && (forall q, q' :: hp <= q < q' < |h| && h[q] <= maxCode && h[q'] <= maxCode ==> given[h[q]] <= given[h[q']])
  }

  lemma GiveOut(given: seq<nat>, bl: seq<nat>, bits: nat, n: nat, m: nat)
    requires GivenOut(given, bl, bits, n) && m < |given| && given[m] == 0 && 1 <= bits && n > 0
    ensures GivenOut(given[m := bits], bl, bits, n - 1)
  {
    CountUpdate(given, m, bits, bits, |given|);
    var g := given[m := bits];
    forall l | 1 <= l <= 15 && l != bits
      ensures HuffmanCode.Total(g, l) == HuffmanCode.Total(given, l)
    {
      CountUpdate(given, m, bits, l, |given|);
    }
  }

  lemma GiveLength(h: seq<nat>, hm: nat, hp: nat, maxCode: int, dl: seq<nat>, given: seq<nat>, bits: nat, limit: nat)
    requires Given(h, hm, hp, maxCode, dl, given, bits, limit)
    requires hm < hp - 1 && h[hp - 1] <= maxCode && 1 <= bits <= limit
    requires forall q, q' :: hm < q < q' < |h| ==> h[q] != h[q']
    ensures given[h[hp - 1]] == 0
    ensures Given(h, hm, hp - 1, maxCode, dl[h[hp - 1] := bits], given[h[hp - 1] := bits], bits, limit)
  {
  }

  lemma {:induction false} NoLeaves(h: seq<nat>, lo: nat, hi: nat, maxCode: int)
    requires lo <= hi <= |h| && LeavesIn(h, lo, hi, maxCode) == 0
    ensures forall q :: lo <= q < hi ==> h[q] > maxCode
  {
    if lo < hi {
      NoLeaves(h, lo, hi - 1, maxCode);
    }
  }

  lemma {:induction false} CostChange(stat: StaticDesc, freq: seq<nat>, lens: seq<nat>, x: nat, v: nat, n: nat)
    requires n <= |freq| && n <= |lens| && x < |lens| && x < |freq|
    ensures x < n ==> Cost(stat, freq, lens[x := v], n) == Cost(stat, freq, lens, n) + (v - lens[x] as int) * freq[x]
    ensures x >= n ==> Cost(stat, freq, lens[x := v], n) == Cost(stat, freq, lens, n)
  {
    if n > 0 {
      CostChange(stat, freq, lens, x, v, n - 1);
      if x == n - 1 {
        MoveFactor(freq[x], lens[x], v, stat.Extra(x));
      }
    }
  }

  lemma MoveFactor(f: int, l: int, v: int, e: int)
    ensures f * (v + e) == f * (l + e) + (v - l) * f
  {
  }

  /** The second pass before it looks below position `hp`, with `n` codes of length `bits` to give out. */
  ghost predicate Reassigning(h: seq<nat>, hm: nat, hp: nat, maxCode: int, dl: seq<nat>, given: seq<nat>, bl: seq<nat>,
                              bits: nat, n: nat, limit: nat)
  {
    && |h| == HEAP_SIZE && 1 <= bits <= limit <= 15
    && Given(h, hm, hp, maxCode, dl, given, bits, limit) && GivenOut(given, bl, bits, n)
    && LeavesIn(h, hm + 1, hp, maxCode) == Codes(bl, bits - 1) + n
  }

  lemma ReassignStep(h: seq<nat>, hm: nat, hp: nat, maxCode: int, dl: seq<nat>, given: seq<nat>, bl: seq<nat>,
                     bits: nat, n: nat, limit: nat)
    requires Reassigning(h, hm, hp, maxCode, dl, given, bl, bits, n, limit) && n > 0
    requires forall q, q' :: hm < q < q' < HEAP_SIZE ==> h[q] != h[q']
    ensures hm < hp - 1
    ensures h[hp - 1] > maxCode ==> Reassigning(h, hm, hp - 1, maxCode, dl, given, bl, bits, n, limit)
    ensures h[hp - 1] <= maxCode ==>
              Reassigning(h, hm, hp - 1, maxCode, dl[h[hp - 1] := bits], given[h[hp - 1] := bits], bl, bits, n - 1,
                  limit)
  {
    hide Codes;
    if hm + 1 == hp {
      assert false;
    }
    if h[hp - 1] <= maxCode {
      hide GivenOut;
      GiveLength(h, hm, hp, maxCode, dl, given, bits, limit);
      GiveOut(given, bl, bits, n, h[hp - 1]);
    }
  }

  /** All codes of length `bits` are given out. */
  lemma ReassignNext(h: seq<nat>, hm: nat, hp: nat, maxCode: int, dl: seq<nat>, given: seq<nat>, bl: seq<nat>,
                     bits: nat, limit: nat)
    requires Reassigning(h, hm, hp, maxCode, dl, given, bl, bits, 0, limit)
    ensures bits > 1 ==> Reassigning(h, hm, hp, maxCode, dl, given, bl, bits - 1, bl[bits - 1], limit)
    ensures bits == 1 && bl[0] == 0 ==> Tells(bl, given) && Given(h, hm, hm + 1, maxCode, dl, given, 0, limit)
  {
    if bits == 1 {
      NoLeaves(h, hm + 1, hp, maxCode);
    }
  }

  lemma ReassignStart(h: seq<nat>, hm: nat, maxCode: int, dl: seq<nat>, given: seq<nat>, bl: seq<nat>, limit: nat)
    requires hm < HEAP_SIZE == |h| && -1 <= maxCode < |given| <= |dl| && |bl| == 16 && 1 <= limit <= 15
    requires forall x :: 0 <= x < |given| ==> given[x] == 0
    requires forall l :: limit < l <= 15 ==> bl[l] == 0
    requires LeavesIn(h, hm + 1, HEAP_SIZE, maxCode) == Codes(bl, limit)
    ensures Reassigning(h, hm, HEAP_SIZE, maxCode, dl, given, bl, limit, bl[limit], limit)
  {
    forall l | 1 <= l <= 15
      ensures HuffmanCode.Total(given, l) == 0
    {
      NoneOfLength(given, l, |given|);
    }
  }

  /** The second pass: the least frequent symbols get the longest codes. */
  method Reassign(s: DeflateState, fc: array<nat>, dl: array<nat>, stat: StaticDesc, maxCode: int,
      ghost leaves: set<nat>)
    returns (ghost given: seq<nat>)
    requires s.Valid() && s.TreeArrays(fc, dl) && stat.Valid() && -1 <= maxCode < stat.elems <= fc.Length
    requires s.heapMax < HEAP_SIZE && s.blCount[0] == 0 && forall l :: stat.limit < l <= 15 ==> s.blCount[l] == 0
    requires forall q, q' :: s.heapMax < q < q' < HEAP_SIZE ==> s.heap[q] != s.heap[q']
    requires forall q :: s.heapMax < q < HEAP_SIZE && s.heap[q] <= maxCode ==> s.heap[q] in leaves
    requires LeavesIn(s.heap[..], s.heapMax + 1, HEAP_SIZE, maxCode) == Codes(s.blCount[..], stat.limit)
    modifies dl, s`optLen
    ensures |given| == stat.elems && Tells(s.blCount[..], given)
    ensures Given(s.heap[..], s.heapMax, s.heapMax + 1, maxCode, dl[..], given, 0, stat.limit)
    ensures forall x :: 0 <= x < dl.Length && x !in leaves ==> dl[x] == old(dl[x]) && (x < stat.elems ==> given[x] == 0)
    ensures s.optLen == old(s.optLen) + Cost(stat, fc[..], dl[..], stat.elems)
              - old(Cost(stat, fc[..], dl[..], stat.elems))
  {
    hide Reassigning, Codes, Cost, HuffmanCode.Count, LeavesIn;
    ghost var h, bl, f, hm := s.heap[..], s.blCount[..], fc[..], s.heapMax;
    given := seq(stat.elems, x => 0);
    var hp := HEAP_SIZE;
    var bits: nat := stat.limit;
    ReassignStart(h, hm, maxCode, dl[..], given, bl, stat.limit);
    while bits != 0
      invariant bits <= stat.limit && |given| == stat.elems && hm < hp <= HEAP_SIZE
      invariant bits > 0 ==> Reassigning(h, hm, hp, maxCode, dl[..], given, bl, bits, bl[bits], stat.limit)
      invariant bits == 0 ==> Tells(bl, given) && Given(h, hm, hm + 1, maxCode, dl[..], given, 0, stat.limit)
      invariant forall x :: 0 <= x < dl.Length && x !in leaves ==>
                dl[x] == old(dl[x]) && (x < stat.elems ==> given[x] == 0)
      invariant s.optLen == old(s.optLen) + Cost(stat, f, dl[..], stat.elems)
                - old(Cost(stat, fc[..], dl[..], stat.elems))
    {
      var n := s.blCount[bits];
      while n != 0
        invariant |given| == stat.elems && hm < hp <= HEAP_SIZE
        invariant Reassigning(h, hm, hp, maxCode, dl[..], given, bl, bits, n, stat.limit)
        invariant forall x :: 0 <= x < dl.Length && x !in leaves ==>
                  dl[x] == old(dl[x]) && (x < stat.elems ==> given[x] == 0)
        invariant s.optLen == old(s.optLen) + Cost(stat, f, dl[..], stat.elems)
                  - old(Cost(stat, fc[..], dl[..], stat.elems))
        decreases hp
      {
        ghost var l0 := dl[..];
        ReassignStep(h, hm, hp, maxCode, l0, given, bl, bits, n, stat.limit);
        hp := hp - 1;
        var m := s.heap[hp];
        if m <= maxCode {
          CostChange(stat, f, l0, m, bits, stat.elems);
          if dl[m] != bits {
            s.optLen := s.optLen + (bits - dl[m] as int) * fc[m];
            dl[m] := bits;
          }
          assert dl[..] == l0[m := bits];
          given := given[m := bits];
          n := n - 1;
        }
      }
      ReassignNext(h, hm, hp, maxCode, dl[..], given, bl, bits, stat.limit);
      bits := bits - 1;
    }
  }

  // ---------- the lengths that come out ----------

  /** The counts weigh what the Kraft sum says. */
  lemma {:induction false} KraftIsWeight(lens: seq<nat>, bl: seq<nat>, limit: nat, l: nat)
    requires Tells(bl, lens) && l <= limit <= 15
    ensures HuffmanCode.Below(lens, l + 1) == Weight(bl, limit, l) * Pow2(15 - limit)
  {
    hide HuffmanCode.Count;
    if l > 0 {
      KraftIsWeight(lens, bl, limit, l - 1);
      Pow2Add(limit - l, 15 - limit);
      assert limit - l + (15 - limit) == 15 - l;
      MulAssoc(bl[l], Pow2(limit - l), Pow2(15 - limit));
      MulDistribute(Weight(bl, limit, l - 1), bl[l] * Pow2(limit - l), Pow2(15 - limit));
    }
  }

  lemma {:induction false} NothingLonger(lens: seq<nat>, limit: nat, l: nat)
    requires limit <= l <= 15 && forall j :: limit < j <= 15 ==> HuffmanCode.Total(lens, j) == 0
    ensures HuffmanCode.Below(lens, l + 1) == HuffmanCode.Below(lens, limit + 1)
  {
    if l > limit {
      NothingLonger(lens, limit, l - 1);
    }
  }

  /** Lengths up to the limit that weigh exactly the code space make a complete code. */
  lemma CompleteCode(lens: seq<nat>, bl: seq<nat>, limit: nat)
    requires Tells(bl, lens) && limit <= 15 && Weight(bl, limit, limit) == Pow2(limit)
    requires forall x :: 0 <= x < |lens| ==> lens[x] <= limit
    ensures HuffmanCode.Kraft(lens) == Pow2(HuffmanCode.MAXBITS) && HuffmanCode.ValidLengths(lens)
    ensures forall l :: limit < l <= 15 ==> bl[l] == 0
  {
    forall j | limit < j <= 15
      ensures HuffmanCode.Total(lens, j) == 0
    {
      NoneOfLength(lens, j, |lens|);
    }
    KraftIsWeight(lens, bl, limit, limit);
    NothingLonger(lens, limit, 15);
    Pow2Add(limit, 15 - limit);
  }

  lemma TellsCounts(bl: seq<nat>, lens: seq<nat>)
    requires Tells(bl, lens)
    ensures bl == Counts(lens, |lens|)
  {
  }

  lemma {:induction false} CodesUpTo(bl: seq<nat>, m: nat, n: nat)
    requires m <= n < |bl| && forall l :: m < l <= n ==> bl[l] == 0
    ensures Codes(bl, n) == Codes(bl, m)
  {
    if m < n {
      CodesUpTo(bl, m, n - 1);
    }
  }

  /** What a finished code promises: it is complete, obeys the limit and codes exactly the leaves. */
  ghost predicate Finished(lens: seq<nat>, bl: seq<nat>, leaves: set<nat>, limit: nat) {
    && HuffmanCode.Kraft(lens) == Pow2(HuffmanCode.MAXBITS) && Tells(bl, lens)
    && forall x :: 0 <= x < |lens| ==> lens[x] <= limit && (lens[x] >= 1 <==> x in leaves)
  }

  /** The state after the first pass, in terms of the lengths. */
  lemma AfterFirstPass(s: DeflateState, fc: array<nat>, dl: array<nat>, stat: StaticDesc, maxCode: int, t: Shape,
                       dad: seq<nat>, p: Pass, y: Tally)
    requires InPass(s, fc, dl, stat, maxCode, t, dad, HEAP_SIZE, p, y) && Fathers(t, dad)
    ensures var lens := dl[..t.elems];
            && y.optBits == Cost(stat, fc[..t.elems], lens, t.elems)
            && y.staticBits == (if stat.hasTree then Cost(stat, fc[..t.elems], stat.lens, t.elems) else 0)
            && Tells(y.bl, lens)
            && (forall x :: 0 <= x < t.elems ==> lens[x] <= stat.limit && (lens[x] >= 1 <==> x in t.leaves))
    ensures 2 * Weight(y.bl, stat.limit, stat.limit) == 2 * Pow2(stat.limit) + y.overflow
    ensures y.overflow >= 0 && 2 * y.bl[stat.limit] >= y.overflow && Codes(y.bl, stat.limit) <= Pow2(stat.limit)
    ensures y.overflow > 0 ==> 2 * y.bl[stat.limit] > y.overflow
    ensures if y.overflow == 0 then HuffmanOptimal.Depths(t, dl[..t.Size()]) else Deep(t, stat.limit)
    ensures Codes(y.bl, stat.limit) == LeavesIn(s.heap[..], s.heapMax + 1, HEAP_SIZE, maxCode)
    ensures |t.pairs| == 1 ==> y.overflow == 0 && forall x :: x in t.leaves ==> dl[x] == 1
  {
    hide Weight, Codes, Pow2, Passed, InOrder, Sorted, Cut, SonsBelow, Cost, UnusedZero, Deep, FullFathers;
    var h, hm, c, lens := s.heap[..], s.heapMax, dl[..t.Size()], dl[..t.elems];
    PassedSymbols(h, hm, t, dad, stat.limit, dl[..], fc[..], p);
    PassedLevels(h, hm, t, dad, stat.limit, dl[..], fc[..], p);
    LeavesCoded(h, hm, t, dad, stat.limit, dl[..], fc[..], p);
    assert c[..t.elems] == lens;
    TellsCounts(y.bl, lens);
    OverflowIsExcess(t, dad, c, stat, y.bl, y.overflow);
    if y.overflow == 0 {
      NothingCut(t, c, stat.limit);
    } else {
      SomethingCut(t, c, stat.limit);
    }
    forall l | stat.limit < l <= 15
      ensures y.bl[l] == 0
    {
      NoneOfLength(lens, l, t.elems);
    }
    CodesUpTo(y.bl, stat.limit, 15);
    if |t.pairs| == 1 {
      OneJoin(t, dad, c, stat.limit);
    }
  }

  /** After the first pass exactly the leaves have a code. */
  lemma LeavesCoded(h: seq<nat>, hm: nat, t: Shape, dad: seq<nat>, limit: nat, dl: seq<nat>, fc: seq<nat>, p: Pass)
    requires ValidShape(t) && InOrder(h, hm, t, dad) && Passed(h, hm, HEAP_SIZE, t, limit, dl, fc, p) && limit >= 1
    requires UnusedZero(t, dl, fc)
    ensures t.Size() <= |dl|
    ensures forall x :: 0 <= x < t.elems ==> dl[x] <= limit && (dl[x] >= 1 <==> x in t.leaves)
  {
    hide InOrder, Cut;
    forall x | 0 <= x < t.elems
      ensures dl[x] <= limit && (dl[x] >= 1 <==> x in t.leaves)
    {
      if x in t.leaves {
        assert x in Sons(t.pairs, |t.pairs|);
        PassedSon(h, hm, t, dad, limit, dl, fc, p, x);
      }
    }
  }

  /** A tree with two leaves: both get a code of one bit. */
  lemma OneJoin(t: Shape, dad: seq<nat>, c: seq<nat>, limit: nat)
    requires ValidShape(t) && Levels(t, c, limit) && Fathers(t, dad) && |t.pairs| == 1 && limit >= 1
    ensures SumIn(Cut(t, dad, c, limit), Sons(t.pairs, |t.pairs|)) == 0
    ensures forall x :: x in t.leaves ==> x < |c| && c[x] == 1
  {
    assert Joins(t, 0) && SonsBelow(t, c, limit, 0) && FatherOf(t, dad, 0);
    var cut := Cut(t, dad, c, limit);
    forall x: nat | x in Sons(t.pairs, 1)
      ensures x < |c| && cut[x] == 0 && c[x] == 1
    {
      assert Sons(t.pairs, 0) == {};
    }
    SumToBounds(cut, Sons(t.pairs, 1), |cut|, 0, 0);
    forall x | x in t.leaves
      ensures x < |c| && c[x] == 1
    {
      assert x in Sons(t.pairs, 1);
    }
  }

  /** Along the heap's end the codes do not become shorter. */
  ghost predicate Falling(h: seq<nat>, hm: nat, lens: seq<nat>, maxCode: int) {
    forall q, q' :: hm < q < q' < |h| && h[q] <= maxCode && h[q'] <= maxCode ==>
      h[q] < |lens| && h[q'] < |lens| && lens[h[q]] <= lens[h[q']]
  }

  lemma GivenFalls(h: seq<nat>, hm: nat, maxCode: int, dl: seq<nat>, given: seq<nat>, limit: nat)
    requires Given(h, hm, hm + 1, maxCode, dl, given, 0, limit)
    ensures Falling(h, hm, dl, maxCode)
  {
  }

  /** Repairs the counts and gives the leaves their new lengths. */
  method SecondPass(s: DeflateState, fc: array<nat>, dl: array<nat>, stat: StaticDesc, maxCode: int, overflow: int,
                    ghost t: Shape, ghost dad: seq<nat>)
    requires Built(s, fc, dl, stat, maxCode, t) && InOrder(s.heap[..], s.heapMax, t, dad) && overflow > 0
    requires forall x :: 0 <= x < t.elems && x !in t.leaves ==> dl[x] == 0
    requires forall l :: stat.limit < l <= 15 ==> s.blCount[l] == 0
    requires s.blCount[0] == 0 && 2 * Weight(s.blCount[..], stat.limit, stat.limit) == 2 * Pow2(stat.limit) + overflow
    requires Codes(s.blCount[..], stat.limit) <= Pow2(stat.limit) && 2 * s.blCount[stat.limit] >= overflow
    requires Codes(s.blCount[..], stat.limit) == LeavesIn(s.heap[..], s.heapMax + 1, HEAP_SIZE, maxCode)
    modifies dl, s.blCount, s`optLen
    ensures Finished(dl[..stat.elems], s.blCount[..], t.leaves, stat.limit)
    ensures Falling(s.heap[..], s.heapMax, dl[..], maxCode)
    ensures 2 * old(s.blCount[stat.limit]) > overflow ==> s.blCount[stat.limit] > 0
    ensures s.optLen == old(s.optLen) + Cost(stat, fc[..], dl[..], stat.elems)
              - old(Cost(stat, fc[..], dl[..], stat.elems))
  {
    hide Sorted, Weight, Codes, Cost, Pow2, LeavesIn, ValidShape, HuffmanCode.Below, Given, Tells, InOrder;
    ghost var l0, f, h := dl[..], fc[..], s.heap[..];
    Repair(s.blCount, stat.limit, overflow);
    assert dl[..] == l0 && fc[..] == f && s.heap[..] == h;
    ghost var bl := s.blCount[..];
    HeapFacts(h, s.heapMax, t, dad, maxCode);
    ghost var given := Reassign(s, fc, dl, stat, maxCode, t.leaves);
    assert s.blCount[..] == bl && fc[..] == f;
    AllGiven(h, s.heapMax, t, dad, maxCode, dl[..], given, stat.limit);
    CompleteCode(given, bl, stat.limit);
    GivenFalls(h, s.heapMax, maxCode, dl[..], given, stat.limit);
  }

  /**
    The code lengths of a tree: they form a complete code within the limit, and `optLen` and
    `staticLen` grow by what the symbols take with these lengths and with the fixed ones. They are the levels of
    the tree, unless some had to be cut; then some code has the most bits there may be.
   */
  method GenBitlen(s: DeflateState, fc: array<nat>, dl: array<nat>, stat: StaticDesc, maxCode: int, ghost t: Shape)
    returns (ghost overflow: int)
    requires Built(s, fc, dl, stat, maxCode, t) && Fathers(t, dl[..]) && UnusedZero(t, dl[..], fc[..])
    modifies dl, s.blCount, s`optLen, s`staticLen
    ensures Finished(dl[..stat.elems], s.blCount[..], t.leaves, stat.limit)
    ensures s.optLen == old(s.optLen) + Cost(stat, fc[..], dl[..], stat.elems)
    ensures s.staticLen == old(s.staticLen) + if stat.hasTree then Cost(stat, fc[..], stat.lens, stat.elems) else 0
    ensures |t.pairs| == 1 ==> forall x :: x in t.leaves ==> dl[x] == 1
    ensures overflow == 0 ==> HuffmanOptimal.Depths(t, dl[..t.Size()])
    ensures overflow != 0 ==>
              && Falling(s.heap[..], s.heapMax, dl[..], maxCode) && Deep(t, stat.limit)
              && exists x :: 0 <= x < stat.elems && dl[x] == stat.limit
  {
    hide Falling, HuffmanOptimal.Depths, Passed, Tallied, Sorted, UnusedZero, Weight, Codes, Cost, Fathers, Pow2,
         LeavesIn, ValidShape,
         HuffmanCode.Below, Tells,
         InOrder, Deep;
    ghost var dad, elems, f := dl[..], stat.elems, fc[..];
    var over, p, y := FirstPass(s, fc, dl, stat, maxCode, t);
    overflow := over;
    AfterFirstPass(s, fc, dl, stat, maxCode, t, dad, p, y);
    ghost var l0 := dl[..];
    assert f == fc[..];
    CostPrefix(stat, f, f[..elems], l0, l0[..elems], elems);
    if stat.hasTree {
      CostPrefix(stat, f, f[..elems], stat.lens, stat.lens, elems);
    }
    NothingBeyond(l0[..elems], y.bl, stat.limit);
    if over == 0 {
      CompleteCode(l0[..elems], y.bl, stat.limit);
    } else {
      SecondPass(s, fc, dl, stat, maxCode, over, t, dad);
      assert fc[..] == f;
      LimitReached(dl[..elems], s.blCount[..], stat.limit);
    }
  }

  lemma LimitReached(lens: seq<nat>, bl: seq<nat>, limit: nat)
    requires Tells(bl, lens) && 1 <= limit <= 15 && bl[limit] > 0
    ensures exists x :: 0 <= x < |lens| && lens[x] == limit
  {
    var x := SomeOfLength(lens, limit, |lens|);
  }

  lemma NothingBeyond(lens: seq<nat>, bl: seq<nat>, limit: nat)
    requires Tells(bl, lens) && forall x :: 0 <= x < |lens| ==> lens[x] <= limit
    ensures |bl| == 16 && bl[0] == 0 && forall l :: limit < l <= 15 ==> bl[l] == 0
  {
    forall l | limit < l <= 15
      ensures bl[l] == 0
    {
      NoneOfLength(lens, l, |lens|);
    }
  }

  lemma HeapFacts(h: seq<nat>, hm: nat, t: Shape, dad: seq<nat>, maxCode: int)
    requires InOrder(h, hm, t, dad) && maxCode < t.elems
    ensures hm < HEAP_SIZE && (forall q, q' :: hm < q < q' < HEAP_SIZE ==> h[q] != h[q'])
    ensures forall q :: hm < q < HEAP_SIZE && h[q] <= maxCode ==> h[q] in t.leaves
  {
    forall q | hm < q < HEAP_SIZE && h[q] <= maxCode
      ensures h[q] in t.leaves
    {
      assert IsSon(h[q], q, t, dad);
    }
  }

  lemma LeafPosition(h: seq<nat>, hm: nat, t: Shape, dad: seq<nat>, x: nat) returns (q: nat)
    requires ValidShape(t) && InOrder(h, hm, t, dad) && x in t.leaves
    ensures hm < q < HEAP_SIZE == |h| && h[q] == x
  {
    assert x in Sons(t.pairs, |t.pairs|);
    q :| hm < q < HEAP_SIZE && h[q] == x;
  }

  /** Every leaf got its new length. */
  lemma AllGiven(h: seq<nat>, hm: nat, t: Shape, dad: seq<nat>, maxCode: int, dl: seq<nat>, given: seq<nat>, limit: nat)
    requires ValidShape(t) && InOrder(h, hm, t, dad) && Given(h, hm, hm + 1, maxCode, dl, given, 0, limit)
    requires |given| == t.elems && forall x :: x in t.leaves ==> x <= maxCode
    requires forall x :: 0 <= x < t.elems && x !in t.leaves ==> given[x] == 0 == dl[x]
    ensures given == dl[..t.elems] && forall x :: 0 <= x < t.elems ==>
              given[x] <= limit && (given[x] >= 1 <==> x in t.leaves)
  {
    hide InOrder;
    forall x: nat | x < t.elems
      ensures given[x] == dl[x] && given[x] <= limit && (given[x] >= 1 <==> x in t.leaves)
    {
      if x in t.leaves {
        var q := LeafPosition(h, hm, t, dad, x);
        assert h[q] <= maxCode;
      }
    }
  }
}
