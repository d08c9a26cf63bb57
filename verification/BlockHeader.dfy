/**
  The header of a dynamic block: the three trees and how long they are (build_bl_tree and send_all_trees in zlib's
  trees.c).
 */
module BlockHeader {
  import opened Arithmetic
  import opened Bits
  import opened BitWriter
  import opened BlockSymbols
  import opened CanonicalTrees
  import opened RunLengths
  import opened ShortestCode
  import opened TreeBuild
  import opened TreeHeap
  import opened TreeCodes
  import opened DeflateBlock
  import BitLengths
  import HuffmanCode

  // ---------- what the items need ----------

  function ExtraBl(sym: nat): nat {
    if sym == REP_3_6 then 2 else if sym == REPZ_3_10 then 3 else if sym == REPZ_11_138 then 7 else 0
  }

  predicate GoodItem(item: Item) {
    item.sym < BL_CODES && item.bits == ExtraBl(item.sym) && item.extra < Pow2(item.bits)
  }

  predicate GoodItems(items: seq<Item>) {
    forall i :: 0 <= i < |items| ==> GoodItem(items[i])
  }

  lemma RunIsGood(prev: int, cur: nat, count: nat)
    requires cur < 16 && 1 <= count <= MaxCount(prev, cur)
    ensures GoodItems(Run(prev, cur, count))
  {
    SmallPowers();
    if count < MinCount(prev, cur) {
      CopiesAre(cur, count);
    }
  }

  /** All items have extra bits that fit. */
  lemma {:induction false} ItemsAreGood(lens: seq<nat>, n: nat, prev: int, count: nat)
    requires n <= |lens| && forall i :: 0 <= i < |lens| ==> lens[i] < 16
    requires n < |lens| ==> count < MaxCount(prev, lens[n])
    ensures GoodItems(ItemsFrom(lens, n, prev, count))
    decreases |lens| - n
  {
    if n < |lens| {
      var cur, c := lens[n], count + 1;
      if c < MaxCount(prev, cur) && cur == NextLength(lens, n) {
        ItemsAreGood(lens, n + 1, prev, c);
      } else {
        ItemsAreGood(lens, n + 1, cur, 0);
        RunIsGood(prev, cur, c);
      }
    }
  }

  function OccursOf(items: seq<Item>): (f: seq<nat>)
    ensures |f| == BL_CODES
  {
    seq(BL_CODES, k requires 0 <= k < BL_CODES => Occurs(items, k))
  }

  lemma {:induction false} UsedItems(items: seq<Item>, i: nat)
    requires i < |items|
    ensures Occurs(items, items[i].sym) > 0
  {
    if i < |items| - 1 {
      UsedItems(items[..|items| - 1], i);
    }
  }

  lemma ExtraOfBl()
    ensures forall k: nat :: k < BL_CODES ==> BlDesc().Extra(k) == ExtraBl(k)
  {
  }

  /** The items take as many bits as their counts predict. */
  lemma {:induction false} EncodeLength(items: seq<Item>, code: seq<nat>, len: seq<nat>)
    requires AllSendable(items, code, len) && GoodItems(items) && |len| >= BL_CODES
    ensures |Encode(items, code, len)| == Cost(BlDesc(), OccursOf(items), len, BL_CODES)
  {
    hide Cost, BlDesc, ToBits, ExtraBl;
    if items == [] {
      NoCost(BlDesc(), OccursOf(items), len, BL_CODES);
    } else {
      var front, last := items[..|items| - 1], [items[|items| - 1]];
      EncodeLength(front, code, len);
      EncodeAppend(front, last, code, len);
      assert front + last == items && last[1..] == [];
      assert Encode(last, code, len) == ItemBits(last[0], code, len) + Encode([], code, len);
      ExtraOfBl();
      CostOneLess(BlDesc(), OccursOf(items), OccursOf(front), len, last[0].sym, BL_CODES);
    }
  }

  /** In a tree built from the counts of the items, all items can be sent. */
  lemma BuiltSendable(items: seq<Item>, freq: seq<nat>, bfc: seq<nat>, bdl: seq<nat>, m: int)
    requires BL_CODES <= |freq| == |bfc| == |bdl| && TreeBuilt(BlDesc(), freq, bfc, bdl, m) && GoodItems(items)
    requires forall k :: 0 <= k < BL_CODES ==> freq[k] >= Occurs(items, k)
    ensures AllSendable(items, bfc, bdl)
  {
    forall i | 0 <= i < |items|
      ensures Sendable(items[i], bfc, bdl)
    {
      UsedItems(items, i);
      assert GoodItem(items[i]);
      BuiltCode(BlDesc(), freq, bfc, bdl, m, items[i].sym);
    }
  }

  /** A used symbol has a codeword that fits its length. */
  lemma BuiltCode(stat: StaticDesc, freq: seq<nat>, fc: seq<nat>, dl: seq<nat>, m: int, n: nat)
    requires stat.elems <= |freq| == |fc| == |dl| && TreeBuilt(stat, freq, fc, dl, m) && n < stat.elems && freq[n] > 0
    ensures 0 < dl[n] <= 15 && dl[n] <= stat.limit && fc[n] < Pow2(dl[n]) && n <= m
  {
    var lens := dl[..stat.elems];
    assert lens[n] == dl[n];
  }

  // ---------- the header's bits ----------

  /** The lengths of the first `n` codes of the code length alphabet, in the order of section 3.2.7 of RFC 1951. */
  function OrderedLengths(len: seq<nat>, n: nat): (s: seq<bool>)
    requires n <= BL_CODES <= |len|
    ensures |s| == 3 * n
  {
    if n == 0 then [] else OrderedLengths(len, n - 1) + ToBits(len[BL_ORDER[n - 1]], 3)
  }

  /** How many codes of each alphabet are sent. */
  function CountBits(lmax: nat, dmax: nat, maxBl: nat): (s: seq<bool>)
    requires lmax >= 256 && maxBl >= 3
    ensures |s| == 14
  {
    ToBits(lmax + 1 - 257, 5) + ToBits(dmax, 5) + ToBits(maxBl + 1 - 4, 4)
  }

  /** What building the trees of a block hands on to sending them. */
  datatype Plan = Plan(lt: Tree, dt: Tree, bt: Tree, lmax: nat, dmax: nat, maxBl: nat)
  {
    /** The code lengths that are sent for literals and lengths. */
    function LLens(): seq<nat>
      requires lmax < |lt.len|
    {
      lt.len[..lmax + 1]
    }

    function DLens(): seq<nat>
      requires dmax < |dt.len|
    {
      dt.len[..dmax + 1]
    }

    ghost predicate Valid() {
      && 256 <= lmax < L_CODES && lmax + 1 < |lt.len| && lt.len[lmax + 1] == GUARD
      && dmax < D_CODES && dmax + 1 < |dt.len| && dt.len[dmax + 1] == GUARD
      && (forall i :: 0 <= i <= lmax ==> lt.len[i] < 16) && (forall i :: 0 <= i <= dmax ==> dt.len[i] < 16)
      && AllSendable(Items(LLens()), bt.code, bt.len) && AllSendable(Items(DLens()), bt.code, bt.len)
      && 3 <= maxBl < BL_CODES <= |bt.len| && (forall k :: 0 <= k < BL_CODES ==> bt.len[k] <= 7)
      && (forall k :: maxBl < k < BL_CODES ==> bt.len[BL_ORDER[k]] == 0) && bt.len[BL_ORDER[maxBl]] != 0
    }

    /** The three trees are complete canonical codes of the lengths that are sent. */
    ghost predicate Canonical() {
      && CanonicalTrees.Canonical(lt, lmax + 1, L_CODES) && CanonicalTrees.Canonical(dt, dmax + 1, D_CODES)
      && CanonicalTrees.Canonical(bt, BL_CODES, BL_CODES)
    }

    ghost function TreeBits(): seq<bool>
      requires Valid()
    {
      Encode(Items(LLens()), bt.code, bt.len) + Encode(Items(DLens()), bt.code, bt.len)
    }

    /** The three counts, the code length code and the two vectors of lengths (section 3.2.7 of RFC 1951). */
    ghost function HeaderBits(): seq<bool>
      requires Valid()
    {
      CountBits(lmax, dmax, maxBl) + OrderedLengths(bt.len, maxBl + 1) + TreeBits()
    }
  }

  lemma OrderInRange(k: nat)
    requires k < BL_CODES
    ensures BL_ORDER[k] < BL_CODES
  {
  }

  method SendCounts(w: Writer, lcodes: nat, dcodes: nat, blcodes: nat)
    requires w.Valid() && 257 <= lcodes <= L_CODES && 1 <= dcodes <= D_CODES && 4 <= blcodes <= BL_CODES && Fits(w, 14)
    modifies w`pending, w`biBuf, w`biValid, w.pendingBuf
    ensures w.Valid() && w.Sent() == old(w.Sent()) + CountBits(lcodes - 1, dcodes - 1, blcodes - 1)
    ensures 8 * w.pending + w.biValid == old(8 * w.pending + w.biValid) + 14
  {
    hide ToBits, Pow2, BytesToBits;
    SmallPowers();
    w.SendBits(lcodes - 257, 5);
    w.SendBits(dcodes - 1, 5);
    w.SendBits(blcodes - 4, 4);
  }

  lemma OrderedNone(sent: seq<bool>, len: seq<nat>)
    requires BL_CODES <= |len|
    ensures sent == sent + OrderedLengths(len, 0)
  {
  }

  lemma OrderedNext(sent: seq<bool>, len: seq<nat>, n: nat)
    requires n < BL_CODES <= |len|
    ensures BL_ORDER[n] < |len|
    ensures sent + OrderedLengths(len, n) + ToBits(len[BL_ORDER[n]], 3) == sent + OrderedLengths(len, n + 1)
  {
    OrderInRange(n);
  }

  /** Sends the lengths of the codes of the code length alphabet. */
  method SendOrderedLengths(w: Writer, blen: array<nat>, blcodes: nat)
    requires w.Valid() && w.Apart(blen) && blcodes <= BL_CODES <= blen.Length && Fits(w, 3 * blcodes)
    requires forall k :: 0 <= k < BL_CODES ==> blen[k] <= 7
    modifies w`pending, w`biBuf, w`biValid, w.pendingBuf
    ensures w.Valid() && w.Sent() == old(w.Sent()) + OrderedLengths(old(blen[..]), blcodes) && blen[..] == old(blen[..])
    ensures 8 * w.pending + w.biValid == old(8 * w.pending + w.biValid) + 3 * blcodes
  {
    hide ToBits, Pow2, BytesToBits, OrderedLengths;
    SmallPowers();
    ghost var len := blen[..];
    var rank: nat := 0;
    OrderedNone(old(w.Sent()), len);
    while rank < blcodes
      invariant rank <= blcodes && w.Valid() && blen[..] == len
      invariant w.Sent() == old(w.Sent()) + OrderedLengths(len, rank)
      invariant 8 * w.pending + w.biValid == old(8 * w.pending + w.biValid) + 3 * rank
    {
      OrderInRange(rank);
      OrderedNext(old(w.Sent()), len, rank);
      w.SendBits(blen[BL_ORDER[rank]], 3);
      rank := rank + 1;
    }
  }

  /** Sends the two vectors of code lengths. */
  method SendTwoTrees(w: Writer, ldl: array<nat>, ddl: array<nat>, bcode: array<nat>, blen: array<nat>,
                      lmax: nat, dmax: nat, ghost p: Plan)
    requires w.Valid() && w.Apart(ldl) && w.Apart(ddl) && w.Apart(bcode) && w.Apart(blen)
    requires p.Valid() && p.lt.len == ldl[..] && p.dt.len == ddl[..] && p.bt == Tree(bcode[..], blen[..])
    requires lmax == p.lmax && dmax == p.dmax && Fits(w, |p.TreeBits()|)
    modifies w`pending, w`biBuf, w`biValid, w.pendingBuf
    ensures w.Valid() && w.Sent() == old(w.Sent()) + p.TreeBits()
    ensures 8 * w.pending + w.biValid == old(8 * w.pending + w.biValid) + |p.TreeBits()|
  {
    hide ToBits, Pow2, BytesToBits, Encode, ItemsFrom, AllSendable, OrderedLengths, CountBits;
    assert ldl[..p.lmax + 1] == p.LLens() && ldl[p.lmax + 1] == p.lt.len[p.lmax + 1];
    SendTree(w, ldl, lmax, bcode, blen);
    assert ddl[..] == p.dt.len && bcode[..] == p.bt.code && blen[..] == p.bt.len;
    assert ddl[..p.dmax + 1] == p.DLens() && ddl[p.dmax + 1] == p.dt.len[p.dmax + 1];
    SendTree(w, ddl, dmax, bcode, blen);
  }

  /** Sends the header of a dynamic block. */
  method SendAllTrees(w: Writer, ldl: array<nat>, ddl: array<nat>, bcode: array<nat>, blen: array<nat>,
                      lcodes: nat, dcodes: nat, blcodes: nat, ghost p: Plan)
    requires w.Valid() && w.Apart(ldl) && w.Apart(ddl) && w.Apart(bcode) && w.Apart(blen)
    requires p.Valid() && p.lt.len == ldl[..] && p.dt.len == ddl[..] && p.bt == Tree(bcode[..], blen[..])
    requires lcodes == p.lmax + 1 && dcodes == p.dmax + 1 && blcodes == p.maxBl + 1
    requires Fits(w, |p.HeaderBits()|)
    modifies w`pending, w`biBuf, w`biValid, w.pendingBuf
    ensures w.Valid() && w.Sent() == old(w.Sent()) + p.HeaderBits()
    ensures 8 * w.pending + w.biValid == old(8 * w.pending + w.biValid) + |p.HeaderBits()|
  {
    hide ToBits, Pow2, BytesToBits, Encode, ItemsFrom, AllSendable, OrderedLengths, CountBits, Plan.TreeBits;
    SendCounts(w, lcodes, dcodes, blcodes);
    assert blen[..] == p.bt.len;
    SendOrderedLengths(w, blen, blcodes);
    assert ldl[..] == p.lt.len && ddl[..] == p.dt.len && bcode[..] == p.bt.code && blen[..] == p.bt.len;
    SendTwoTrees(w, ldl, ddl, bcode, blen, lcodes - 1, dcodes - 1, p);
  }

  // ---------- building the three trees ----------

  /** The items of both vectors of lengths and what sending them takes. */
  lemma BlTreeSends(llens: seq<nat>, dlens: seq<nat>, freq: seq<nat>, bfc: seq<nat>, bdl: seq<nat>, m: int)
    requires BL_CODES <= |freq| == |bfc| == |bdl| && TreeBuilt(BlDesc(), freq, bfc, bdl, m)
    requires forall i :: 0 <= i < |llens| ==> llens[i] < 16
    requires forall i :: 0 <= i < |dlens| ==> dlens[i] < 16
    requires forall k :: 0 <= k < BL_CODES ==> freq[k] == Occurs(Items(llens), k) + Occurs(Items(dlens), k)
    ensures AllSendable(Items(llens), bfc, bdl) && AllSendable(Items(dlens), bfc, bdl)
    ensures |Encode(Items(llens), bfc, bdl)| + |Encode(Items(dlens), bfc, bdl)| == Cost(BlDesc(), freq, bdl, BL_CODES)
    ensures forall k :: 0 <= k < BL_CODES ==> bdl[k] <= 7
  {
    hide Cost, BlDesc, TreeBuilt, Encode, AllSendable, GoodItems;
    var a, b := Items(llens), Items(dlens);
    ItemsAreGood(llens, 0, -1, 0);
    ItemsAreGood(dlens, 0, -1, 0);
    DescsValid();
    BuiltSendable(a, freq, bfc, bdl, m);
    BuiltSendable(b, freq, bfc, bdl, m);
    EncodeLength(a, bfc, bdl);
    EncodeLength(b, bfc, bdl);
    CostAdds(BlDesc(), freq, OccursOf(a), OccursOf(b), bdl, BL_CODES);
    BuiltLimit(BlDesc(), freq, bfc, bdl, m);
  }

  lemma BuiltLimit(stat: StaticDesc, freq: seq<nat>, fc: seq<nat>, dl: seq<nat>, m: int)
    requires stat.elems <= |freq| == |fc| == |dl| && TreeBuilt(stat, freq, fc, dl, m)
    ensures forall k :: 0 <= k < stat.elems ==> dl[k] <= stat.limit
  {
    forall k | 0 <= k < stat.elems
      ensures dl[k] <= stat.limit
    {
      assert dl[..stat.elems][k] == dl[k];
    }
  }

  lemma {:induction false} CostAdds(stat: StaticDesc, freq: seq<nat>, f: seq<nat>, g: seq<nat>, lens: seq<nat>, n: nat)
    requires n <= |freq| && n <= |f| && n <= |g| && n <= |lens| && forall i :: 0 <= i < n ==> freq[i] == f[i] + g[i]
    ensures Cost(stat, freq, lens, n) == Cost(stat, f, lens, n) + Cost(stat, g, lens, n)
  {
    if n > 0 {
      CostAdds(stat, freq, f, g, lens, n - 1);
      MulDistribute(f[n - 1], g[n - 1], lens[n - 1] + stat.Extra(n - 1));
    }
  }

  /** The first used length is sent as itself. */
  lemma {:induction false} SomeLength(lens: seq<nat>, n: nat, prev: int, count: nat) returns (i: nat)
    requires n < |lens| && prev <= 0 && lens[|lens| - 1] != 0 && forall j :: 0 <= j < |lens| ==> lens[j] < 16
    ensures i < |ItemsFrom(lens, n, prev, count)| && ItemsFrom(lens, n, prev, count)[i].sym in lens
    ensures ItemsFrom(lens, n, prev, count)[i].sym != 0
    decreases |lens| - n
  {
    var cur, c := lens[n], count + 1;
    if c < MaxCount(prev, cur) && cur == NextLength(lens, n) {
      i := SomeLength(lens, n + 1, prev, c);
    } else if cur == 0 {
      i := SomeLength(lens, n + 1, 0, 0);
      i := i + |Run(prev, cur, c)|;
    } else {
      CopiesAre(cur, c);
      i := 0;
    }
  }

  lemma OrderIsOnto(sym: nat) returns (k: nat)
    requires sym < 16
    ensures 3 <= k < BL_CODES && BL_ORDER[k] == sym
  {
    k := [3, 17, 15, 13, 11, 9, 7, 5, 4, 6, 8, 10, 12, 14, 16, 18][sym];
  }

  /** So the code length code has at least four lengths to send. */
  lemma EnoughBlCodes(lens: seq<nat>, bfc: seq<nat>, bdl: seq<nat>) returns (k: nat)
    requires lens != [] && lens[|lens| - 1] != 0 && forall i :: 0 <= i < |lens| ==> lens[i] < 16
    requires AllSendable(Items(lens), bfc, bdl) && |bdl| >= BL_CODES
    ensures 3 <= k < BL_CODES && BL_ORDER[k] < BL_CODES && bdl[BL_ORDER[k]] != 0
  {
    var i := SomeLength(lens, 0, -1, 0);
    assert Sendable(Items(lens)[i], bfc, bdl);
    k := OrderIsOnto(Items(lens)[i].sym);
  }

  /** Counts the items of both vectors of lengths, builds their tree and adds the header's length to `optLen`. */
  method BuildBlTree(s: DeflateState, ldl: array<nat>, lmax: nat, ddl: array<nat>, dmax: nat, bfc: array<nat>,
      bdl: array<nat>)
    returns (maxBl: nat)
    requires s.Valid() && s.TreeArrays(bfc, bdl) && 2 * BL_CODES < bfc.Length
    requires lmax + 1 < ldl.Length && dmax + 1 < ddl.Length
    requires ldl !in {ddl, bfc, bdl, s.heap, s.depth, s.blCount} && ddl !in {bfc, bdl, s.heap, s.depth, s.blCount}
    requires ldl[lmax] != 0 && forall i :: 0 <= i <= lmax ==> ldl[i] < 16
    requires forall i :: 0 <= i <= dmax ==> ddl[i] < 16
    requires forall k :: 0 <= k < BL_CODES ==> bfc[k] == 0
    modifies s, s.heap, s.depth, s.blCount, ldl, ddl, bfc, bdl
    ensures ldl[..] == old(ldl[..])[lmax + 1 := GUARD] && ddl[..] == old(ddl[..])[dmax + 1 := GUARD]
    ensures AllSendable(Items(ldl[..lmax + 1]), bfc[..], bdl[..])
              && AllSendable(Items(ddl[..dmax + 1]), bfc[..], bdl[..])
    ensures 3 <= maxBl < BL_CODES && bdl[BL_ORDER[maxBl]] != 0 && forall k :: maxBl < k < BL_CODES ==>
              bdl[BL_ORDER[k]] == 0
    ensures forall k :: 0 <= k < BL_CODES ==> bdl[k] <= 7
    ensures CanonicalTrees.Canonical(Tree(bfc[..], bdl[..]), BL_CODES, BL_CODES)
    ensures s.staticLen == old(s.staticLen)
    ensures s.optLen == old(s.optLen) + |Encode(Items(ldl[..lmax + 1]), bfc[..], bdl[..])|
                        + |Encode(Items(ddl[..dmax + 1]), bfc[..], bdl[..])| + 3 * (maxBl + 1) + 5 + 5 + 4
  {
    hide Cost, BlDesc, TreeBuilt, Encode, AllSendable, ItemsFrom, StaticDesc.Valid, Occurs, CanonicalTrees.Canonical;
    ghost var llens: seq<nat>, dlens: seq<nat> := ldl[..lmax + 1], ddl[..dmax + 1];
    ScanTree(ldl, lmax, bfc);
    ghost var l1 := ldl[..];
    assert ddl[..dmax + 1] == dlens && l1[..lmax + 1] == llens;
    ScanTree(ddl, dmax, bfc);
    ghost var d1, freq := ddl[..], bfc[..];
    assert ldl[..] == l1 && d1[..dmax + 1] == dlens;
    DescsValid();
    BlHasNoTree();
    var m := BuildTree(s, bfc, bdl, BlDesc());
    assert ldl[..] == l1 && ddl[..] == d1;
    BlTreeSends(llens, dlens, freq, bfc[..], bdl[..], m);
    BuiltCanonical(BlDesc(), freq, bfc[..], bdl[..], m);
    ghost var least := EnoughBlCodes(llens, bfc[..], bdl[..]);
    OrdersInRange();
    maxBl := BL_CODES - 1;
    while maxBl >= 3
      invariant least <= maxBl < BL_CODES && forall k :: maxBl < k < BL_CODES ==> bdl[BL_ORDER[k]] == 0
      modifies {}
    {
      if bdl[BL_ORDER[maxBl]] != 0 {
        break;
      }
      maxBl := maxBl - 1;
    }
    s.optLen := s.optLen + 3 * (maxBl + 1) + 5 + 5 + 4;
  }

  lemma OrdersInRange()
    ensures forall k :: 0 <= k < BL_CODES ==> BL_ORDER[k] < BL_CODES
  {
  }

  lemma BlHasNoTree()
    ensures !BlDesc().hasTree && BlDesc().elems == BL_CODES && BlDesc().limit == 7
  {
  }

  // ---------- the whole block ----------

  /** All symbols of a block have codewords in the trees built from their counts. */
  lemma BlockCodable(syms: seq<Symbol>, lfreq: seq<nat>, dfreq: seq<nat>, lfc: seq<nat>, ldl: seq<nat>, dfc: seq<nat>,
      ddl: seq<nat>,
                     lt: Tree, dt: Tree, lmax: int, dmax: int)
    requires Counted(syms, lfreq, dfreq) && |lfreq| == |lfc| == |ldl| && |dfreq| == |dfc| == |ddl|
    requires TreeBuilt(LDesc(), lfreq, lfc, ldl, lmax) && TreeBuilt(DDesc(), dfreq, dfc, ddl, dmax)
    requires lmax + 1 < |ldl| && dmax + 1 < |ddl|
    requires lt == Tree(lfc, ldl[lmax + 1 := GUARD]) && dt == Tree(dfc, ddl[dmax + 1 := GUARD])
    ensures AllCodable(syms, lt, dt) && HasCode(lt, END_BLOCK) && lmax >= END_BLOCK
  {
    hide TreeBuilt, LengthCode, DistCode, LDesc, DDesc, HasCode, Counted, LFreq, DFreq;
    DescsValid();
    CountedUses(syms, lfreq, dfreq);
    TreeHasCode(LDesc(), lfreq, lfc, ldl, lmax, END_BLOCK);
    forall i | 0 <= i < |syms|
      ensures Codable(syms[i], lt, dt)
    {
      TreeHasCode(LDesc(), lfreq, lfc, ldl, lmax, LSym(syms[i]));
      if syms[i].Match? {
        TreeHasCode(DDesc(), dfreq, dfc, ddl, dmax, DistCode(syms[i].dist - 1));
      }
    }
  }

  /** What occurs in a block has a positive counter. */
  lemma CountedUses(syms: seq<Symbol>, lfreq: seq<nat>, dfreq: seq<nat>)
    requires Counted(syms, lfreq, dfreq)
    ensures AllValid(syms) && |lfreq| >= L_CODES && |dfreq| >= D_CODES && lfreq[END_BLOCK] > 0
    ensures forall i :: 0 <= i < |syms| ==>
              lfreq[LSym(syms[i])] > 0 && (syms[i].Match? ==> dfreq[DistCode(syms[i].dist - 1)] > 0)
  {
    hide LengthCode, DistCode, LFreq, DFreq;
    forall i | 0 <= i < |syms|
      ensures lfreq[LSym(syms[i])] > 0 && (syms[i].Match? ==> dfreq[DistCode(syms[i].dist - 1)] > 0)
    {
      FreqPositive(syms, i);
    }
  }

  /** A used symbol has its codeword in the tree with the guard behind it. */
  lemma TreeHasCode(stat: StaticDesc, freq: seq<nat>, fc: seq<nat>, dl: seq<nat>, m: int, n: nat)
    requires stat.elems <= |freq| == |fc| == |dl| && TreeBuilt(stat, freq, fc, dl, m) && n < stat.elems && freq[n] > 0
    requires m + 1 < |dl|
    ensures n <= m && HasCode(Tree(fc, dl[m + 1 := GUARD]), n)
  {
    hide TreeBuilt;
    BuiltCode(stat, freq, fc, dl, m, n);
  }

  lemma {:induction false} FreqPositive(syms: seq<Symbol>, i: nat)
    requires AllValid(syms) && i < |syms|
    ensures LFreq(syms, LSym(syms[i])) > 0
    ensures syms[i].Match? ==> DFreq(syms, DistCode(syms[i].dist - 1)) > 0
  {
    hide LengthCode, DistCode;
    if i < |syms| - 1 {
      FreqPositive(syms[..|syms| - 1], i);
    }
  }

  /** The length of the tree's largest code is not zero, and no length is beyond 15. */
  lemma BuiltLens(stat: StaticDesc, freq: seq<nat>, fc: seq<nat>, dl: seq<nat>, m: int)
    requires stat.elems <= |freq| == |fc| == |dl| && TreeBuilt(stat, freq, fc, dl, m) && stat.limit <= 15
    ensures 0 <= m < stat.elems && dl[m] != 0 && forall i :: 0 <= i <= m ==> dl[i] < 16
  {
    BuiltLimit(stat, freq, fc, dl, m);
    assert dl[..stat.elems][m] == dl[m];
  }

  /** A guard behind the used lengths does not change the cost, because nothing is counted there. */
  lemma GuardCost(stat: StaticDesc, freq: seq<nat>, fc: seq<nat>, dl: seq<nat>, m: int)
    requires stat.elems <= |freq| == |fc| == |dl| && TreeBuilt(stat, freq, fc, dl, m) && m + 1 < |dl|
    ensures Cost(stat, freq, dl[m + 1 := GUARD], stat.elems) == Cost(stat, freq, dl, stat.elems)
  {
    var lens := dl[..stat.elems];
    forall x | 0 <= x < stat.elems && freq[x] != 0
      ensures dl[m + 1 := GUARD][x] == dl[x]
    {
      assert lens[x] > 0;
    }
    BitLengths.CostLens(stat, freq, dl[m + 1 := GUARD], dl, stat.elems);
  }

  /**
    Builds the three trees of a block. `optLen` becomes exactly the length of the header, the symbols and
    the end of the block with these trees, and `staticLen` what the counts predict for the fixed trees.
   */
  method PlanBlock(s: DeflateState, lfc: array<nat>, ldl: array<nat>, dfc: array<nat>, ddl: array<nat>,
                   bfc: array<nat>, bdl: array<nat>, ghost syms: seq<Symbol>)
    returns (lmax: nat, dmax: nat, maxBl: nat, ghost p: Plan)
    requires s.Valid() && s.TreeArrays(lfc, ldl) && s.TreeArrays(dfc, ddl) && s.TreeArrays(bfc, bdl)
    requires lfc !in {dfc, ddl, bfc, bdl} && ldl !in {dfc, ddl, bfc, bdl} && dfc !in {bfc, bdl} && ddl !in {bfc, bdl}
    requires 2 * L_CODES < lfc.Length && 2 * D_CODES < dfc.Length && 2 * BL_CODES < bfc.Length
    requires Counted(syms, lfc[..], dfc[..]) && (forall k :: 0 <= k < BL_CODES ==> bfc[k] == 0)
    requires s.optLen == 0 == s.staticLen
    modifies s, s.heap, s.depth, s.blCount, lfc, ldl, dfc, ddl, bfc, bdl
    ensures p.Valid() && p == Plan(Tree(lfc[..], ldl[..]), Tree(dfc[..], ddl[..]), Tree(bfc[..], bdl[..]), lmax, dmax,
              maxBl)
    ensures AllCodable(syms, p.lt, p.dt) && HasCode(p.lt, END_BLOCK) && p.Canonical()
    ensures s.optLen == |p.HeaderBits()| + |SymbolsBits(syms, p.lt, p.dt) + CodeBits(p.lt, END_BLOCK)|
    ensures s.staticLen == old(Cost(LDesc(), lfc[..], FixedLengths(), L_CODES)
              + Cost(DDesc(), dfc[..], FixedDistLengths(), D_CODES))
  {
    hide Cost, TreeBuilt, Encode, AllSendable, ItemsFrom, StaticDesc.Valid, Counted, AllCodable, SymbolsBits, HasCode,
         CodeBits,
         LDesc, DDesc, CanonicalTrees.Canonical;
    ghost var lfreq, dfreq := lfc[..], dfc[..];
    DescsValid();
    DescLens();
    var l := BuildTree(s, lfc, ldl, LDesc());
    ghost var lfc1, ldl1 := lfc[..], ldl[..];
    assert dfc[..] == dfreq;
    var d := BuildTree(s, dfc, ddl, DDesc());
    ghost var dfc1, ddl1 := dfc[..], ddl[..];
    assert lfc[..] == lfc1 && ldl[..] == ldl1;
    BuiltLens(LDesc(), lfreq, lfc1, ldl1, l);
    BuiltLens(DDesc(), dfreq, dfc1, ddl1, d);
    lmax, dmax := l, d;
    maxBl := BuildBlTree(s, ldl, lmax, ddl, dmax, bfc, bdl);
    assert lfc[..] == lfc1 && dfc[..] == dfc1;
    p := Plan(Tree(lfc[..], ldl[..]), Tree(dfc[..], ddl[..]), Tree(bfc[..], bdl[..]), lmax, dmax, maxBl);
    BlockCodable(syms, lfreq, dfreq, lfc1, ldl1, dfc1, ddl1, p.lt, p.dt, lmax, dmax);
    GuardedCanonical(LDesc(), lfreq, lfc1, ldl1, lmax);
    GuardedCanonical(DDesc(), dfreq, dfc1, ddl1, dmax);
    GuardCost(LDesc(), lfreq, lfc1, ldl1, lmax);
    GuardCost(DDesc(), dfreq, dfc1, ddl1, dmax);
    BlockLength(syms, lfreq, dfreq, p.lt, p.dt);
    assert p.LLens() == ldl[..lmax + 1] && p.DLens() == ddl[..dmax + 1];
  }

  // ---------- how often symbols are used ----------

  lemma {:induction false} TotalOneMore(freq: seq<nat>, freq': seq<nat>, x: nat, n: nat)
    requires n <= |freq| && n <= |freq'|
    requires forall i :: 0 <= i < n ==> freq'[i] == freq[i] + if i == x then 1 else 0
    ensures TotalUses(freq', n) == TotalUses(freq, n) + if x < n then 1 else 0
  {
    if n > 0 {
      TotalOneMore(freq, freq', x, n - 1);
    }
  }

  lemma {:induction false} TotalSame(freq: seq<nat>, freq': seq<nat>, n: nat)
    requires n <= |freq| && n <= |freq'| && forall i :: 0 <= i < n ==> freq'[i] == freq[i]
    ensures TotalUses(freq', n) == TotalUses(freq, n)
  {
    if n > 0 {
      TotalSame(freq, freq', n - 1);
    }
  }

  lemma {:induction false} TotalNone(freq: seq<nat>, n: nat)
    requires n <= |freq| && forall i :: 0 <= i < n ==> freq[i] == 0
    ensures TotalUses(freq, n) == 0
  {
    if n > 0 {
      TotalNone(freq, n - 1);
    }
  }

  lemma {:induction false} FreqTotals(syms: seq<Symbol>, lfreq: seq<nat>, dfreq: seq<nat>)
    requires AllValid(syms) && |lfreq| == L_CODES && |dfreq| == D_CODES
    requires forall n :: 0 <= n < L_CODES ==> lfreq[n] == LFreq(syms, n)
    requires forall n :: 0 <= n < D_CODES ==> dfreq[n] == DFreq(syms, n)
    ensures TotalUses(lfreq, L_CODES) == |syms| && TotalUses(dfreq, D_CODES) <= |syms|
  {
    hide TotalUses, LengthCode, DistCode;
    if syms == [] {
      TotalNone(lfreq, L_CODES);
      TotalNone(dfreq, D_CODES);
    } else {
      var front, s := syms[..|syms| - 1], syms[|syms| - 1];
      var l := seq(L_CODES, n requires 0 <= n < L_CODES => LFreq(front, n));
      var d := seq(D_CODES, n requires 0 <= n < D_CODES => DFreq(front, n));
      FreqTotals(front, l, d);
      SymbolInRange(s);
      TotalOneMore(l, lfreq, LSym(s), L_CODES);
      if s.Match? {
        TotalOneMore(d, dfreq, DistCode(s.dist - 1), D_CODES);
      } else {
        TotalSame(d, dfreq, D_CODES);
      }
    }
  }

  lemma SymbolInRange(s: Symbol)
    requires ValidSymbol(s)
    ensures LSym(s) < L_CODES && (s.Match? ==> DistCode(s.dist - 1) < D_CODES)
  {
    if s.Match? {
      LengthFits(s.lc);
      DistFits(s.dist - 1);
    }
  }

  /** A block's counters add up to its symbols and its end, so a buffer of symbols is never too much for 16 bits. */
  lemma BlockTotals(syms: seq<Symbol>, lfreq: seq<nat>, dfreq: seq<nat>)
    requires Counted(syms, lfreq, dfreq)
    ensures TotalUses(lfreq, L_CODES) == |syms| + 1 && TotalUses(dfreq, D_CODES) <= |syms|
  {
    hide TotalUses;
    var l := seq(L_CODES, n requires 0 <= n < L_CODES => LFreq(syms, n));
    var d := seq(D_CODES, n requires 0 <= n < D_CODES => DFreq(syms, n));
    FreqTotals(syms, l, d);
    TotalOneMore(l, lfreq, END_BLOCK, L_CODES);
    TotalSame(d, dfreq, D_CODES);
  }

  lemma DescLens()
    ensures LDesc().hasTree && DDesc().hasTree && LDesc().lens == FixedLengths() && DDesc().lens == FixedDistLengths()
    ensures LDesc().limit == 15 == DDesc().limit
  {
  }
}
