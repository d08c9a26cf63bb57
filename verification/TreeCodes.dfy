/**
  Assigning the code bits of a Huffman tree, and building a tree as a whole (gen_codes and build_tree in zlib's
  trees.c).
 */
module TreeCodes {
  import opened Arithmetic
  import opened HuffmanCode
  import opened HuffmanTree
  import opened ShortestCode
  import opened TreeBuild
  import opened TreeHeap
  import BitLengths
  import HuffmanHeight
  import HuffmanOptimal
  import Sums

  // ---------- reversing a code ----------

  /** Reverses the low `len` bits of `value`. */
  method BiReverse(value: nat, len: nat) returns (res: nat)
    requires 1 <= len <= MAXBITS
    ensures res == Reverse(len, value)
  {
    hide Pow2;
    var code, left := value, len;
    res := 2 * (code % 2);
    code, left := code / 2, left - 1;
    ReverseFirst(value, len);
    while left > 0
      invariant 0 <= left < len && res % 2 == 0
      invariant Reverse(len, value) == Tail(res, left, code)
    {
      TailStep(res, left, code);
      res := 2 * (res + code % 2);
      code := code / 2;
      left := left - 1;
    }
    TailEnd(res, code);
    res := res / 2;
  }

  /** What the reversal of `len` bits is once all but `left` bits were taken from `code` into `res / 2`. */
  function Tail(res: nat, left: nat, code: nat): nat {
    MulPositive(res / 2, Pow2(left));
    (res / 2) * Pow2(left) + Reverse(left, code)
  }

  lemma ReverseFirst(value: nat, len: nat)
    requires len >= 1
    ensures Reverse(len, value) == Tail(2 * (value % 2), len - 1, value / 2)
  {
    var bit, p := value % 2, Pow2(len - 1);
    hide Pow2;
    DivModUnique(2 * bit, 2, bit, 0);
    if bit == 0 {
      assert 0 * p == 0;
    } else {
      assert 1 * p == p;
    }
  }

  lemma TailStep(res: nat, left: nat, code: nat)
    requires left >= 1
    ensures Tail(res, left, code) == Tail(2 * (res + code % 2), left - 1, code / 2) || res % 2 == 1
  {
    if res % 2 == 0 {
      var a, p := res / 2, Pow2(left - 1);
      assert (res + code % 2) == 2 * a + code % 2;
      MulDistribute(2 * a, code % 2, p);
      MulAssoc(a, 2, p);
    }
  }

  lemma TailEnd(res: nat, code: nat)
    ensures Tail(res, 0, code) == res / 2
  {
    assert Pow2(0) == 1 && Reverse(0, code) == 0;
  }

  // ---------- code assignment ----------

  lemma CodeRange(lens: seq<nat>, l: nat)
    requires Kraft(lens) <= Pow2(MAXBITS) && 1 <= l <= MAXBITS
    ensures FirstCode(lens, l) + Total(lens, l) <= Pow2(MAXBITS) == 0x8000
  {
    FirstCodeIsBelow(lens, l);
    BelowMonotone(lens, l + 1, MAXBITS + 1);
    var f, c, u := FirstCode(lens, l), Total(lens, l), Unit(l);
    MulDistribute(f, c, u);
    MulMonotone(f + c, 1, u);
    Pow2Values();
  }

  lemma Pow2Values()
    ensures Pow2(MAXBITS) == 0x8000
  {
    assert Pow2(5) == 32;
    Pow2Add(5, 5);
    Pow2Add(5, 10);
  }

  /** Gives every symbol with a code length its canonical codeword, in the order in which it is sent. */
  method GenCodes(fc: array<nat>, dl: array<nat>, maxCode: int, blCount: array<nat>, elems: nat)
    requires fc != dl && blCount != fc && blCount.Length == 16 && -1 <= maxCode < elems <= fc.Length == dl.Length
    requires BitLengths.Tells(blCount[..], dl[..elems]) && Kraft(dl[..elems]) <= Pow2(MAXBITS)
              && ValidLengths(dl[..elems])
    requires forall n :: maxCode < n < elems ==> dl[n] == 0
    modifies fc
    ensures forall n :: 0 <= n < elems && dl[n] != 0 ==> fc[n] == SentCode(dl[..elems], n)
    ensures forall n :: 0 <= n < fc.Length && (n >= elems || dl[n] == 0) ==> fc[n] == old(fc[n])
  {
    hide Kraft, Pow2, Reverse, FirstCode, Count;
    ghost var lens := dl[..elems];
    var nextCode := new nat[16];
    var code, bits := 0, 1;
    Pow2Values();
    while bits <= MAXBITS
      invariant 1 <= bits <= 16 && code == (if bits == 1 then 0 else FirstCode(lens, bits - 1))
      invariant forall l :: 1 <= l < bits ==> nextCode[l] == FirstCode(lens, l) < 0x1_0000
      modifies nextCode
    {
      NextFirstCode(lens, blCount[..], bits);
      code := (code + blCount[bits - 1]) * 2 % 0x1_0000;
      nextCode[bits] := code;
      bits := bits + 1;
    }
    var n: nat := 0;
    NoneCounted(lens);
    while n <= maxCode
      invariant n <= maxCode + 1 && dl[..elems] == lens
      invariant forall l :: 1 <= l <= MAXBITS ==> nextCode[l] == FirstCode(lens, l) + Count(lens, l, n)
      invariant forall k :: 0 <= k < n && dl[k] != 0 ==> fc[k] == SentCode(lens, k)
      invariant forall k :: 0 <= k < fc.Length && (k >= n || dl[k] == 0) ==> fc[k] == old(fc[k])
    {
      var len := dl[n];
      assert len == lens[n];
      CountNext(lens, n);
      if len != 0 {
        var reversed := BiReverse(nextCode[len], len);
        CodeRange(lens, len);
        CountStrict(lens, n, |lens|);
        assert Codeword(lens, n) == nextCode[len];
        nextCode[len] := (nextCode[len] + 1) % 0x1_0000;
        fc[n] := reversed;
      }
      n := n + 1;
    }
  }

  lemma NextFirstCode(lens: seq<nat>, bl: seq<nat>, bits: nat)
    requires BitLengths.Tells(bl, lens) && Kraft(lens) <= Pow2(MAXBITS) && 1 <= bits <= MAXBITS
    ensures FirstCode(lens, bits) < 0x1_0000
    ensures bits == 1 ==> FirstCode(lens, bits) == 0 == bl[0]
    ensures bits > 1 ==> FirstCode(lens, bits) == 2 * (FirstCode(lens, bits - 1) + bl[bits - 1])
  {
    CodeRange(lens, bits);
  }

  lemma NoneCounted(lens: seq<nat>)
    ensures forall l: nat :: Count(lens, l, 0) == 0
  {
  }

  lemma CountNext(lens: seq<nat>, n: nat)
    requires n < |lens|
    ensures forall l: nat :: Count(lens, l, n + 1) == Count(lens, l, n) + if lens[n] == l then 1 else 0
  {
  }

  // ---------- the whole tree ----------

  /** What a built tree is: a complete code within the limit that has a codeword for every used symbol. */
  ghost predicate TreeBuilt(stat: StaticDesc, freq: seq<nat>, fc: seq<nat>, dl: seq<nat>, maxCode: int)
    requires stat.elems <= |freq| == |fc| == |dl|
  {
    var lens := dl[..stat.elems];
    && ValidLengths(lens) && Kraft(lens) == Pow2(MAXBITS)
    && (forall n :: 0 <= n < stat.elems ==> lens[n] <= stat.limit && (freq[n] != 0 ==> lens[n] > 0))
    && (forall n :: 0 <= n < stat.elems && lens[n] > 0 ==> n <= maxCode && fc[n] == SentCode(lens, n))
    && 0 <= maxCode < stat.elems && lens[maxCode] > 0
  }

  /** Symbols that were put in use cost one bit each. */
  lemma {:induction false} ForcedCost(stat: StaticDesc, freq: seq<nat>, freq': seq<nat>, lens: seq<nat>, n: nat)
    requires n <= |freq| && n <= |lens| && Forced(freq, freq', stat, true)
    requires forall x :: 0 <= x < n && freq[x] != freq'[x] ==> lens[x] == 1
    ensures Cost(stat, freq', lens, n) == Cost(stat, freq, lens, n) + NumForced(freq, freq', n)
  {
    if n > 0 {
      ForcedCost(stat, freq, freq', lens, n - 1);
    }
  }

  lemma {:induction false} NoneForced(freq: seq<nat>, freq': seq<nat>, stat: StaticDesc, n: nat)
    requires n <= |freq| && Forced(freq, freq', stat, false)
    ensures NumForced(freq, freq', n) == 0 && freq == freq'
  {
    if n > 0 {
      NoneForced(freq, freq', stat, n - 1);
    }
  }

  /** The queue that BuildHeap leaves is where joining starts. */
  lemma StartJoining(s: DeflateState, fc: array<nat>, dl: array<nat>, stat: StaticDesc, leaves: set<nat>)
    requires s.Valid() && s.TreeArrays(fc, dl) && stat.Valid() && 2 * stat.elems < fc.Length
    requires leaves == Used(fc[..], stat.elems) && 2 <= s.heapLen <= stat.elems && s.heapMax == HEAP_SIZE
    requires forall x :: x in leaves ==> s.depth[..][x] == 0
    requires Queue(s.heap[..], s.heapLen, fc[..], s.depth[..], leaves)
    ensures s.Joining(fc, dl, Shape(stat.elems, leaves, []), leaves)
  {
    HoldsEntries(s.heap[..], s.heapLen, leaves);
  }

  lemma UsedNodes(h: seq<nat>, len: nat, freq: seq<nat>, depth: seq<nat>, n: nat)
    requires n <= |freq| && Holds(h, len, Used(freq, n)) && |depth| >= n
    ensures Nodes(h, len, freq, depth)
  {
    HoldsEntries(h, len, Used(freq, n));
  }

  lemma UsedFacts(freq: seq<nat>, n: nat, maxCode: int)
    requires n <= |freq| && LastUsed(freq, n, maxCode)
    ensures -1 <= maxCode < n && (maxCode >= 0 ==> maxCode in Used(freq, n))
    ensures forall x :: x in Used(freq, n) ==> x <= maxCode && freq[x] != 0
    ensures forall x :: 0 <= x < n && x !in Used(freq, n) ==> freq[x] == 0
  {
  }

  /** What was added to `optLen` and taken off for forced symbols is the cost of the symbols in use at first. */
  lemma NetCost(stat: StaticDesc, f0: seq<nat>, f1: seq<nat>, f2: seq<nat>, lens: seq<nat>, forced: bool)
    requires stat.elems <= |f0| == |f1| && stat.elems <= |f2| && stat.elems <= |lens| && Forced(f0, f1, stat, forced)
    requires forall x :: 0 <= x < stat.elems ==> f2[x] == f1[x]
    requires forced ==> forall x :: 0 <= x < stat.elems && f1[x] != 0 ==> lens[x] == 1
    ensures Cost(stat, f2, lens, stat.elems) == Cost(stat, f0, lens, stat.elems) + NumForced(f0, f1, stat.elems)
  {
    CostPrefix(stat, f2, f1, lens, lens, stat.elems);
    if forced {
      ForcedCost(stat, f0, f1, lens, stat.elems);
    } else {
      NoneForced(f0, f1, stat, stat.elems);
    }
  }

  lemma StillUnused(f0: seq<nat>, f1: seq<nat>, stat: StaticDesc, forced: bool)
    requires Forced(f0, f1, stat, forced)
    ensures forall x :: 0 <= x < |f0| ==> (f1[x] == 0 ==> f0[x] == 0) && (f0[x] != 0 ==> f1[x] != 0)
  {
  }

  /** The symbols in use, at least two of them, in a heap by their frequency. */
  method FindLeaves(s: DeflateState, fc: array<nat>, dl: array<nat>, stat: StaticDesc)
      returns (maxCode: int, ghost leaves: set<nat>, ghost forced: bool)
    requires s.Valid() && s.TreeArrays(fc, dl) && stat.Valid() && 2 * stat.elems < fc.Length
    modifies s.heap, s.depth, fc, dl, s`heapLen, s`heapMax, s`optLen, s`staticLen
    ensures s.Joining(fc, dl, Shape(stat.elems, leaves, []), leaves) && 2 <= s.heapLen <= stat.elems
    ensures leaves == Used(fc[..], stat.elems) && 0 <= maxCode < stat.elems && maxCode in leaves
              && (forall x :: x in leaves ==> x <= maxCode)
    ensures forall x :: 0 <= x < stat.elems && x !in leaves ==> fc[x] == 0 && dl[x] == 0
    ensures forall x :: 0 <= x < fc.Length && old(fc[x]) != 0 ==> fc[x] != 0
    ensures Forced(old(fc[..]), fc[..], stat, forced) && (forced ==> |leaves| == 2)
    ensures s.optLen == old(s.optLen) - NumForced(old(fc[..]), fc[..], stat.elems)
    ensures stat.hasTree ==>
              s.staticLen + Cost(stat, fc[..], stat.lens, stat.elems) == old(s.staticLen)
                  + old(Cost(stat, fc[..], stat.lens, stat.elems))
    ensures !stat.hasTree ==> s.staticLen == old(s.staticLen)
  {
    hide Queue, Forest, Greedy, Ranked, Fathers, Sorted, Holds, OrderedFrom, Nodes, Smaller, ValidShape, Cost,
         NumForced,
         Forced, Used, LastUsed;
    ghost var f0 := fc[..];
    var lastUsed := s.InitHeap(fc, dl, stat.elems);
    assert fc[..] == f0;
    maxCode := s.ForceCodes(fc, dl, stat, lastUsed);
    ghost var f1 := fc[..];
    leaves := Used(f1, stat.elems);
    forced := s.heapLen <= 2;
    UsedNodes(s.heap[..], s.heapLen, f1, s.depth[..], stat.elems);
    UsedFacts(f1, stat.elems, maxCode);
    StillUnused(f0, f1, stat, forced);
    HoldsEntries(s.heap[..], s.heapLen, leaves);
    assert s.heap[..][1] in leaves;
    s.BuildHeap(fc[..], leaves);
    StartJoining(s, fc, dl, stat, leaves);
  }

  /** What the lengths promise when the symbols were used less than 2^16 times, so that no node's count was cut. */
  ghost predicate Shortest(stat: StaticDesc, freq: seq<nat>, lens: seq<nat>)
    requires stat.elems <= |freq| && stat.elems <= |lens|
  {
    TotalUses(freq, stat.elems) < 0x1_0000 ==>
      && RarestLongest(freq, lens, stat.elems)
      && ((forall x :: 0 <= x < stat.elems ==> lens[x] < stat.limit) || Attainable(stat, freq) ==>
            Optimal(stat, freq, lens[..stat.elems]))
  }

  /** The symbols' uses are those of the tree's leaves, and neither they nor the depths were cut. */
  lemma NothingWrapped(stat: StaticDesc, freq: seq<nat>, nodes: seq<nat>, depth: seq<nat>, t: Shape)
    requires ValidShape(t) && Greedy(t, nodes) && t.Size() <= |nodes| && t.elems == stat.elems <= |freq|
    requires Ranked(t, nodes, depth) && t.Size() <= |depth|
    requires t.leaves == Used(freq, stat.elems) && forall x :: 0 <= x < stat.elems ==> nodes[x] == freq[x]
    requires TotalUses(freq, stat.elems) < 0x1_0000
    ensures HuffmanOptimal.Huffman(t, nodes) && HuffmanHeight.Heights(t, depth)
  {
    hide ValidShape, Greedy, Ranked, HuffmanHeight.Heights;
    TotalIsSum(freq, nodes, t.leaves, stat.elems);
    Sums.SumToBeyond(nodes, t.leaves, stat.elems, |nodes|);
    HuffmanOptimal.IsHuffman(t, nodes);
    HuffmanHeight.DepthsAreHeights(t, nodes, depth);
  }

  lemma UncutShortest(stat: StaticDesc, freq: seq<nat>, nodes: seq<nat>, t: Shape, lens: seq<nat>)
    requires HuffmanOptimal.Huffman(t, nodes) && t.Size() <= |lens| && HuffmanOptimal.Depths(t, lens[..t.Size()])
    requires t.elems == stat.elems <= |freq| && t.leaves == Used(freq, stat.elems) && t.Size() <= |nodes|
    requires forall x :: 0 <= x < stat.elems ==> nodes[x] == freq[x]
    ensures Shortest(stat, freq, lens)
  {
    hide HuffmanOptimal.Huffman, HuffmanOptimal.Depths, TotalUses;
    var c, n := lens[..t.Size()], stat.elems;
    TreeIsOptimal(t, stat, nodes, freq, c, lens[..n]);
    forall x, y | 0 <= x < n && 0 <= y < n && 0 < freq[x] < freq[y]
      ensures lens[x] >= lens[y]
    {
      HuffmanOptimal.RarerIsLower(t, nodes, c, x, y);
    }
  }

  lemma CutShortest(stat: StaticDesc, freq: seq<nat>, nodes: seq<nat>, depth: seq<nat>, t: Shape, lens: seq<nat>,
      h: seq<nat>, hm: nat, maxCode: int)
    requires HuffmanOptimal.Huffman(t, nodes) && Sorted(h, t) && hm == 572 - 2 * |t.pairs|
    requires BitLengths.Falling(h, hm, lens, maxCode) && (forall x :: x in t.leaves ==> x <= maxCode)
    requires t.elems == stat.elems <= |freq| && stat.elems <= |lens| && t.leaves == Used(freq, stat.elems)
    requires t.Size() <= |nodes| && forall x :: 0 <= x < stat.elems ==> nodes[x] == freq[x]
    requires exists x :: 0 <= x < stat.elems && lens[x] == stat.limit
    requires ValidShape(t) && Ranked(t, nodes, depth) && HuffmanHeight.Heights(t, depth) && Deep(t, stat.limit)
    ensures Shortest(stat, freq, lens)
  {
    hide HuffmanOptimal.Huffman, Optimal, TotalUses, ValidShape, Deep, Ranked, HuffmanHeight.Heights, Attainable;
    var n := stat.elems;
    if Attainable(stat, freq) {
      AttainableIsNotDeep(t, stat, nodes, freq, depth);
      assert false;
    }
    forall x, y | 0 <= x < n && 0 <= y < n && 0 < freq[x] < freq[y]
      ensures lens[x] >= lens[y]
    {
      assert x in t.leaves && y in t.leaves;
      FallingIsRarest(h, t, nodes, lens, x, y);
    }
  }

  /** With at most two symbols every code has one bit. */
  lemma ForcedShortest(stat: StaticDesc, freq: seq<nat>, lens: seq<nat>)
    requires stat.elems <= |freq| && stat.elems <= |lens|
    requires forall x :: 0 <= x < stat.elems && freq[x] > 0 ==> lens[x] == 1
    ensures Shortest(stat, freq, lens)
  {
    hide Optimal;
    OneBitIsOptimal(stat, freq, lens[..stat.elems]);
  }

  /** The lengths are the shortest, whether symbols had to be put in use, levels to be cut, or neither. */
  lemma ShortestTree(stat: StaticDesc, f0: seq<nat>, f1: seq<nat>, nodes: seq<nat>, depth: seq<nat>, forced: bool,
      t: Shape, lens: seq<nat>, h: seq<nat>, hm: nat, maxCode: int, overflow: int)
    requires ValidShape(t) && Greedy(t, nodes) && Sorted(h, t) && hm == 572 - 2 * |t.pairs|
    requires Ranked(t, nodes, depth) && t.Size() <= |depth|
    requires t.elems == stat.elems <= |f0| && t.Size() <= |nodes| && t.Size() <= |lens| && stat.elems <= |lens|
    requires Forced(f0, f1, stat, forced) && t.leaves == Used(f1, stat.elems)
    requires forall x :: 0 <= x < stat.elems ==> nodes[x] == f1[x] && (f0[x] != 0 ==> f1[x] != 0)
    requires forced ==> forall x :: x in t.leaves ==> x < |lens| && lens[x] == 1
    requires overflow == 0 ==> HuffmanOptimal.Depths(t, lens[..t.Size()])
    requires overflow != 0 ==>
               && BitLengths.Falling(h, hm, lens, maxCode) && Deep(t, stat.limit)
               && exists x :: 0 <= x < stat.elems && lens[x] == stat.limit
    requires forall x :: x in t.leaves ==> x <= maxCode
    ensures Shortest(stat, f0, lens)
  {
    hide ValidShape, Greedy, Sorted, BitLengths.Falling, HuffmanOptimal.Depths, HuffmanOptimal.Huffman, TotalUses,
         Optimal, RarestLongest, Ranked, Deep, Attainable, HuffmanHeight.Heights;
    if forced {
      forall x | 0 <= x < stat.elems && f0[x] > 0
        ensures lens[x] == 1
      {
        assert x in t.leaves;
      }
      ForcedShortest(stat, f0, lens);
    } else if TotalUses(f0, stat.elems) < 0x1_0000 {
      NoneForced(f0, f1, stat, stat.elems);
      NothingWrapped(stat, f0, nodes, depth, t);
      if overflow == 0 {
        UncutShortest(stat, f0, nodes, t, lens);
      } else {
        CutShortest(stat, f0, nodes, depth, t, lens, h, hm, maxCode);
      }
    }
  }

  /**
    Builds a tree from the symbol frequencies in `fc`: the result is a complete prefix code, no code takes less unless
    the limit was reached and all codes that take the least break it, and `optLen` and `staticLen` grow by what all
    symbols together take.
   */
  method BuildTree(s: DeflateState, fc: array<nat>, dl: array<nat>, stat: StaticDesc) returns (maxCode: int)
    requires s.Valid() && s.TreeArrays(fc, dl) && stat.Valid() && 2 * stat.elems < fc.Length
    modifies s, s.heap, s.depth, s.blCount, fc, dl
    ensures TreeBuilt(stat, old(fc[..]), fc[..], dl[..], maxCode) && Shortest(stat, old(fc[..]), dl[..])
    ensures s.optLen == old(s.optLen) + Cost(stat, old(fc[..]), dl[..], stat.elems)
    ensures s.staticLen == old(s.staticLen) + if stat.hasTree then Cost(stat, old(fc[..]), stat.lens, stat.elems) else 0
  {
    hide Queue, Forest, Greedy, Ranked, Fathers, Sorted, Holds, OrderedFrom, Nodes, Smaller, ValidShape, Cost,
         NumForced,
         Forced, Used,
         LastUsed, Kraft, Pow2, BitLengths.Finished, BitLengths.Tells, BitLengths.Falling, HuffmanOptimal.Depths,
         Shortest, Deep;
    ghost var f0, leaves, forced := fc[..], {}, false;
    var elems := stat.elems;
    maxCode, leaves, forced := FindLeaves(s, fc, dl, stat);
    ghost var f1 := fc[..];
    ghost var t := s.Combine(fc, dl, elems, leaves);
    ghost var f2 := fc[..];
    ghost var overflow := BitLengths.GenBitlen(s, fc, dl, stat, maxCode, t);
    ghost var l2 := dl[..];
    assert fc[..] == f2;
    ShortestTree(stat, f0, f1, f2, s.depth[..], forced, t, l2, s.heap[..], s.heapMax, maxCode, overflow);
    LeavesUsed(stat, f0, f1, leaves, l2, s.blCount[..]);
    GenCodes(fc, dl, maxCode, s.blCount, elems);
    assert dl[..] == l2;
    NetCost(stat, f0, f1, f2, l2, forced);
    if stat.hasTree {
      CostPrefix(stat, f2, f1, stat.lens, stat.lens, elems);
    }
  }

  /** The coded symbols are those in use. */
  lemma LeavesUsed(stat: StaticDesc, f0: seq<nat>, f1: seq<nat>, leaves: set<nat>, dl: seq<nat>, bl: seq<nat>)
    requires stat.Valid() && stat.elems <= |f0| == |f1| && stat.elems <= |dl| && leaves == Used(f1, stat.elems)
    requires BitLengths.Finished(dl[..stat.elems], bl, leaves, stat.limit)
    requires forall x :: 0 <= x < |f0| && f0[x] != 0 ==> f1[x] != 0
    ensures ValidLengths(dl[..stat.elems]) && BitLengths.Tells(bl, dl[..stat.elems])
    ensures Kraft(dl[..stat.elems]) == Pow2(MAXBITS)
    ensures forall x :: 0 <= x < stat.elems ==> dl[x] <= stat.limit && (dl[x] > 0 <==> x in leaves)
    ensures forall x :: 0 <= x < stat.elems && f0[x] != 0 ==> dl[x] > 0
  {
    var lens := dl[..stat.elems];
    forall x | 0 <= x < stat.elems
      ensures dl[x] <= stat.limit && (dl[x] > 0 <==> x in leaves) && (f0[x] != 0 ==> dl[x] > 0)
    {
      assert dl[x] == lens[x];
    }
  }
}
