/**
  Writing out a block in the best of its three forms, and beginning the next one (_tr_flush_block in zlib's trees.c).
 */
module FlushBlock {
  import opened Arithmetic
  import opened Bits
  import opened BitWriter
  import opened BlockHeader
  import opened BlockSymbols
  import opened DeflateBlock
  import opened RunLengths
  import opened TreeBuild
  import HuffmanCode

  const STORED_BLOCK: nat := 0
  const STATIC_TREES: nat := 1
  const DYN_TREES: nat := 2

  datatype Kind = Stored | Static | Dynamic

  function BytesOf(bits: int): int {
    (bits + 3 + 7) / 8
  }

  /** The choice between the three forms of a block. */
  method ChooseBlock(optLen: nat, staticLen: nat, storedLen: nat, hasBuf: bool, fixed: bool) returns (kind: Kind)
    ensures kind.Stored? <==> hasBuf && storedLen + 4 <= Min(BytesOf(optLen), BytesOf(staticLen))
    ensures kind.Static? ==> fixed || BytesOf(staticLen) <= BytesOf(optLen)
    ensures kind.Dynamic? ==> !fixed && BytesOf(optLen) < BytesOf(staticLen)
  {
    var optLenb, staticLenb := (optLen + 3 + 7) / 8, (staticLen + 3 + 7) / 8;
    if staticLenb <= optLenb {
      optLenb := staticLenb;
    }
    if storedLen + 4 <= optLenb && hasBuf {
      kind := Stored;
    } else if fixed || staticLenb == optLenb {
      kind := Static;
    } else {
      kind := Dynamic;
    }
  }

  /** The fixed trees (section 3.2.6 of RFC 1951). */
  ghost predicate FixedTrees(lt: Tree, dt: Tree) {
    && lt.len == FixedLengths() && |lt.code| == |lt.len|
    && (forall n :: 0 <= n < L_CODES + 2 ==>
       HuffmanCode.Coded(lt.len, n) && lt.code[n] == HuffmanCode.SentCode(lt.len, n))
    && dt.len == FixedDistLengths() && |dt.code| == D_CODES && forall n :: 0 <= n < D_CODES ==>
       dt.code[n] == Reverse(5, n)
  }

  lemma FixedCodable(lt: Tree, dt: Tree, syms: seq<Symbol>)
    requires FixedTrees(lt, dt) && AllValid(syms)
    ensures AllCodable(syms, lt, dt) && HasCode(lt, END_BLOCK)
  {
    hide LengthCode, DistCode, HuffmanCode.Codeword;
    forall n: nat | n < L_CODES
      ensures HasCode(lt, n)
    {
      assert HuffmanCode.Coded(lt.len, n) && lt.code[n] == HuffmanCode.SentCode(lt.len, n);
    }
    forall n: nat | n < D_CODES
      ensures HasCode(dt, n)
    {
      assert dt.code[n] == Reverse(5, n);
    }
  }

  ghost function BlockBits(kind: nat, last: nat, body: seq<bool>): seq<bool> {
    ToBits(2 * kind + last, 3) + body
  }

  /** Sends a block with the fixed trees: as many bits as the counters predicted. */
  method SendStaticBlock(w: Writer, buf: SymbolBuffer, last: nat, lcode: array<nat>, llen: array<nat>,
      dcode: array<nat>, dlen: array<nat>,
                         ghost lfreq: seq<nat>, ghost dfreq: seq<nat>, ghost staticLen: nat)
    requires w.Valid() && buf.Valid() && last <= 1 && buf.symBuf != w.pendingBuf
    requires w.Apart(lcode) && w.Apart(llen) && w.Apart(dcode) && w.Apart(dlen)
    requires FixedTrees(Tree(lcode[..], llen[..]), Tree(dcode[..], dlen[..])) && Counted(buf.Symbols(), lfreq, dfreq)
    requires staticLen == Cost(LDesc(), lfreq, FixedLengths(), L_CODES)
              + Cost(DDesc(), dfreq, FixedDistLengths(), D_CODES)
    requires Fits(w, 3 + staticLen)
    modifies w`pending, w`biBuf, w`biValid, w.pendingBuf
    ensures w.Valid() && AllCodable(old(buf.Symbols()), old(Tree(lcode[..], llen[..])), old(Tree(dcode[..], dlen[..])))
    ensures HasCode(old(Tree(lcode[..], llen[..])), END_BLOCK)
    ensures w.Sent() == old(w.Sent()) + BlockBits(STATIC_TREES, last,
              SymbolsBits(old(buf.Symbols()), old(Tree(lcode[..], llen[..])), old(Tree(dcode[..], dlen[..])))
              + CodeBits(old(Tree(lcode[..], llen[..])), END_BLOCK))
    ensures |w.Sent()| == |old(w.Sent())| + 3 + staticLen
  {
    hide ToBits, Pow2, BytesToBits, SymbolsIn, SymbolsBits, AllCodable, Counted, Cost, FixedTrees, CodeBits, LDesc,
         DDesc;
    ghost var lt, dt, syms := Tree(lcode[..], llen[..]), Tree(dcode[..], dlen[..]), buf.Symbols();
    CountedValid(syms, lfreq, dfreq);
    FixedCodable(lt, dt, syms);
    FixedSizes(lt, dt);
    BlockLength(syms, lfreq, dfreq, lt, dt);
    SmallPowers();
    w.SendBits(STATIC_TREES * 2 + last, 3);
    assert Tree(lcode[..], llen[..]) == lt && Tree(dcode[..], dlen[..]) == dt && buf.Symbols() == syms;
    assert |CodeBits(lt, END_BLOCK)| == llen[END_BLOCK] by {
      EndLength(lt);
      assert llen[END_BLOCK] == lt.len[END_BLOCK];
    }
    CompressBlock(w, buf.symBuf, buf.symNext, lcode, llen, dcode, dlen);
    Regroup3(old(w.Sent()), ToBits(2 * STATIC_TREES + last, 3), SymbolsBits(syms, lt, dt), CodeBits(lt, END_BLOCK));
  }

  lemma CountedValid(syms: seq<Symbol>, lfreq: seq<nat>, dfreq: seq<nat>)
    requires Counted(syms, lfreq, dfreq)
    ensures AllValid(syms)
  {
  }

  lemma FixedSizes(lt: Tree, dt: Tree)
    requires FixedTrees(lt, dt)
    ensures lt.len == FixedLengths() && dt.len == FixedDistLengths()
  {
  }

  lemma Regroup3(s: seq<bool>, a: seq<bool>, b: seq<bool>, c: seq<bool>)
    ensures s + a + b + c == s + (a + (b + c))
  {
  }

  /** Sends a block with its own trees: as many bits as `optLen` says. */
  method SendDynamicBlock(w: Writer, buf: SymbolBuffer, last: nat, lcode: array<nat>, llen: array<nat>,
      dcode: array<nat>, dlen: array<nat>,
                          bcode: array<nat>, blen: array<nat>, lmax: nat, dmax: nat, maxBl: nat, ghost p: Plan)
    requires w.Valid() && buf.Valid() && last <= 1 && buf.symBuf != w.pendingBuf
    requires w.Apart(lcode) && w.Apart(llen) && w.Apart(dcode) && w.Apart(dlen) && w.Apart(bcode) && w.Apart(blen)
    requires p.Valid() && p == Plan(Tree(lcode[..], llen[..]), Tree(dcode[..], dlen[..]), Tree(bcode[..], blen[..]),
              lmax, dmax, maxBl)
    requires AllCodable(buf.Symbols(), p.lt, p.dt) && HasCode(p.lt, END_BLOCK)
    requires Fits(w, 3 + |p.HeaderBits()| + |SymbolsBits(buf.Symbols(), p.lt, p.dt) + CodeBits(p.lt, END_BLOCK)|)
    modifies w`pending, w`biBuf, w`biValid, w.pendingBuf
    ensures w.Valid()
    ensures w.Sent() == old(w.Sent()) + BlockBits(DYN_TREES, last,
              p.HeaderBits() + (SymbolsBits(old(buf.Symbols()), p.lt, p.dt) + CodeBits(p.lt, END_BLOCK)))
    ensures |w.Sent()| == |old(w.Sent())| + 3 + |p.HeaderBits()|
                          + |SymbolsBits(old(buf.Symbols()), p.lt, p.dt) + CodeBits(p.lt, END_BLOCK)|
  {
    hide ToBits, Pow2, BytesToBits, SymbolsIn, SymbolsBits, AllCodable, CodeBits, Plan.Valid, Plan.Canonical,
         Plan.HeaderBits;
    ghost var syms, start := buf.Symbols(), 8 * w.pending + w.biValid;
    SmallPowers();
    w.SendBits(DYN_TREES * 2 + last, 3);
    assert llen[..] == p.lt.len && dlen[..] == p.dt.len && bcode[..] == p.bt.code && blen[..] == p.bt.len;
    SendAllTrees(w, llen, dlen, bcode, blen, lmax + 1, dmax + 1, maxBl + 1, p);
    assert Tree(lcode[..], llen[..]) == p.lt && Tree(dcode[..], dlen[..]) == p.dt && buf.Symbols() == syms;
    assert |CodeBits(p.lt, END_BLOCK)| == llen[END_BLOCK] by {
      EndLength(p.lt);
      assert llen[END_BLOCK] == p.lt.len[END_BLOCK];
    }
    CompressBlock(w, buf.symBuf, buf.symNext, lcode, llen, dcode, dlen);
    RegroupBlock(old(w.Sent()), ToBits(2 * DYN_TREES + last, 3), p.HeaderBits(), SymbolsBits(syms, p.lt, p.dt),
        CodeBits(p.lt, END_BLOCK));
  }

  lemma EndLength(lt: Tree)
    requires HasCode(lt, END_BLOCK)
    ensures |CodeBits(lt, END_BLOCK)| == lt.len[END_BLOCK]
  {
  }

  lemma RegroupBlock(s: seq<bool>, a: seq<bool>, h: seq<bool>, b: seq<bool>, c: seq<bool>)
    ensures s + a + h + b + c == s + (a + (h + (b + c)))
  {
    assert s + a + h + b + c == s + (a + h + b + c);
    assert a + h + b + c == a + (h + (b + c));
  }

  // ---------- the stored form ----------

  /** The bits that fill up the last of `n` bits' bytes. */
  function Padding(n: nat): (p: nat)
    ensures p < 8 && (n + p) % 8 == 0
  {
    (8 - n % 8) % 8
  }

  /**
    A stored block behind `sent` bits: padding, the length, its complement and the bytes (section 3.2.4 of RFC 1951).
   */
  ghost function StoredBits(sent: nat, last: nat, data: seq<Byte>): seq<bool> {
    var n := |data| % 0x1_0000;
    ToBits(2 * STORED_BLOCK + last, 3) + seq(Padding(sent + 3), _ => false) + ToBits(n, 16) + ToBits(0xffff - n, 16)
        + BytesToBits(data)
  }

  lemma StoredLength(sent: nat, last: nat, data: seq<Byte>)
    ensures |StoredBits(sent, last, data)| == 3 + Padding(sent + 3) + 8 * (|data| + 4)
  {
  }

  /** Puts whole bytes behind whole bytes (put_byte and put_short). */
  method PutAligned(w: Writer, v: nat, n: nat)
    requires w.Valid() && w.biValid == 0 && w.pending + n <= w.pendingBuf.Length
    modifies w`pending, w.pendingBuf
    ensures w.Valid() && w.biValid == 0 && w.pending == old(w.pending) + n
    ensures w.Sent() == old(w.Sent()) + ToBits(v, 8 * n)
  {
    hide ToBits, BytesToBits, WordBytes, Pow2;
    ghost var b: seq<nat> := w.pendingBuf[..w.pending];
    NoBits();
    w.PutBytes(v, n);
    WordBytesBits(v, n);
    BytesToBitsConcat(b, WordBytes(v, n));
    assert |ToBits(w.biBuf, 0)| == 0;
  }

  /** Puts `data` behind whole bytes. */
  method PutData(w: Writer, data: seq<Byte>)
    requires w.Valid() && w.biValid == 0 && w.pending + |data| <= w.pendingBuf.Length
    modifies w`pending, w.pendingBuf
    ensures w.Valid() && w.biValid == 0 && w.pending == old(w.pending) + |data|
    ensures w.Sent() == old(w.Sent()) + BytesToBits(data)
  {
    hide ToBits, BytesToBits, Pow2;
    var k: nat := 0;
    BytesNone(data);
    while k < |data|
      invariant k <= |data| && w.Valid() && w.biValid == 0 && w.pending == old(w.pending) + k
      invariant w.Sent() == old(w.Sent()) + BytesToBits(data[..k])
    {
      PutAligned(w, data[k], 1);
      BytesNext(data, k);
      assert 8 * 1 == 8;
      k := k + 1;
    }
    assert data[..k] == data;
  }

  lemma BytesNone(data: seq<Byte>)
    ensures BytesToBits(data[..0]) == []
  {
  }

  lemma BytesNext(data: seq<Byte>, k: nat)
    requires k < |data|
    ensures BytesToBits(data[..k + 1]) == BytesToBits(data[..k]) + ToBits(data[k], 8)
  {
    BytesToBitsAppend(data[..k], data[k]);
    assert data[..k + 1] == data[..k] + [data[k]];
  }

  /** There is room for a stored block of `n` bytes: the bits before it, filled up, and five bytes more. */
  predicate StoredFits(w: Writer, n: nat)
    reads w
  {
    w.pending + (w.biValid + 10) / 8 + 4 + n <= w.pendingBuf.Length
  }

  /** Sends the kind of a stored block and goes on to the next whole byte. */
  method SendStoredKind(w: Writer, last: nat)
    requires w.Valid() && last <= 1 && w.pending + (w.biValid + 10) / 8 <= w.pendingBuf.Length
    modifies w`pending, w`biBuf, w`biValid, w.pendingBuf
    ensures w.Valid() && w.biValid == 0 && w.pending == old(w.pending + (w.biValid + 10) / 8)
    ensures w.Sent() == old(w.Sent()) + (ToBits(2 * STORED_BLOCK + last, 3)
              + seq(Padding(|old(w.Sent())| + 3), _ => false))
  {
    hide ToBits, BytesToBits, Pow2;
    ghost var start := w.Sent();
    SmallPowers();
    w.SendBits(2 * STORED_BLOCK + last, 3);
    w.BiWindup();
    PaddingIs(|start| + 3, |w.Sent()| - |start| - 3, w.pending);
    assert start + ToBits(2 * STORED_BLOCK + last, 3) + seq(Padding(|start| + 3), _ => false)
        == start + (ToBits(2 * STORED_BLOCK + last, 3) + seq(Padding(|start| + 3), _ => false));
  }

  /** Sends a stored block (_tr_stored_block and copy_block). */
  method SendStoredBlock(w: Writer, data: seq<Byte>, last: nat)
    requires w.Valid() && last <= 1 && StoredFits(w, |data|)
    modifies w`pending, w`biBuf, w`biValid, w.pendingBuf
    ensures w.Valid() && w.biValid == 0 && w.Sent() == old(w.Sent()) + StoredBits(|old(w.Sent())|, last, data)
  {
    hide ToBits, BytesToBits, Pow2, Padding;
    ghost var start := w.Sent();
    SendStoredKind(w, last);
    var n := |data| % 0x1_0000;
    PutAligned(w, n, 2);
    PutAligned(w, 0xffff - n, 2);
    PutData(w, data);
    RegroupStored(start, ToBits(2 * STORED_BLOCK + last, 3) + seq(Padding(|start| + 3), _ => false),
                  ToBits(n, 16), ToBits(0xffff - n, 16), BytesToBits(data));
  }

  lemma PaddingIs(n: nat, p: nat, bytes: nat)
    requires p < 8 && n + p == 8 * bytes
    ensures p == Padding(n)
  {
  }

  lemma RegroupStored(s: seq<bool>, b: seq<bool>, c: seq<bool>, d: seq<bool>, e: seq<bool>)
    ensures s + b + c + d + e == s + (b + c + d + e)
  {
  }

  // ---------- a whole block ----------

  /** The compressor's own trees, and the fixed ones. */
  datatype Trees = Trees(lfc: array<nat>, ldl: array<nat>, dfc: array<nat>, ddl: array<nat>, bfc: array<nat>,
      bdl: array<nat>,
                         lcode: array<nat>, llen: array<nat>, dcode: array<nat>, dlen: array<nat>)
  {
    ghost function Own(): set<array<nat>> {
      {lfc, ldl, dfc, ddl, bfc, bdl}
    }

    ghost function Const(): set<array<nat>> {
      {lcode, llen, dcode, dlen}
    }

    /** All arrays are different, and large enough to build trees in. */
    ghost predicate Apart(s: DeflateState, w: Writer, buf: SymbolBuffer) {
      && s.Valid() && s.TreeArrays(lfc, ldl) && s.TreeArrays(dfc, ddl) && s.TreeArrays(bfc, bdl)
      && lfc !in {dfc, ddl, bfc, bdl} && ldl !in {dfc, ddl, bfc, bdl} && dfc !in {bfc, bdl} && ddl !in {bfc, bdl}
      && 2 * L_CODES < lfc.Length && 2 * D_CODES < dfc.Length && 2 * BL_CODES < bfc.Length
      && Const() !! Own() + {s.heap, s.depth, s.blCount}
      && (forall a: array<nat> | a in Own() + Const() + {s.heap, s.depth, s.blCount} ::
            w.Apart(a) && (buf.symBuf as object) != (a as object))
      && buf.lfreq == lfc && buf.dfreq == dfc && buf.symBuf != w.pendingBuf
    }

    ghost function FixedL(): Tree
      reads lcode, llen
    {
      Tree(lcode[..], llen[..])
    }

    ghost function FixedD(): Tree
      reads dcode, dlen
    {
      Tree(dcode[..], dlen[..])
    }
  }

  /** What the counters predict for the fixed trees. */
  ghost function StaticCost(lfreq: seq<nat>, dfreq: seq<nat>): nat
    requires |lfreq| >= L_CODES && |dfreq| >= D_CODES
  {
    Cost(LDesc(), lfreq, FixedLengths(), L_CODES) + Cost(DDesc(), dfreq, FixedDistLengths(), D_CODES)
  }

  /** The state between two blocks, while symbols are recorded. */
  ghost predicate Recording(s: DeflateState, w: Writer, buf: SymbolBuffer, t: Trees)
    reads s, w, buf, buf.symBuf, t.lfc, t.dfc, t.bfc, t.lcode, t.llen, t.dcode, t.dlen
  {
    && t.Apart(s, w, buf) && w.Valid() && buf.InStep() && s.optLen == 0 == s.staticLen
    && FixedTrees(t.FixedL(), t.FixedD())
    && forall k :: 0 <= k < BL_CODES ==> t.bfc[k] == 0
  }

  /** What was sent is a block with the given trees. */
  ghost predicate SentStatic(before: seq<bool>, after: seq<bool>, last: nat, syms: seq<Symbol>, lt: Tree, dt: Tree) {
    && AllCodable(syms, lt, dt) && HasCode(lt, END_BLOCK)
    && after == before + BlockBits(STATIC_TREES, last, SymbolsBits(syms, lt, dt) + CodeBits(lt, END_BLOCK))
  }

  /** What was sent is a block with its own trees. */
  ghost predicate SentDynamic(before: seq<bool>, after: seq<bool>, last: nat, syms: seq<Symbol>, p: Plan) {
    && p.Valid() && AllCodable(syms, p.lt, p.dt) && HasCode(p.lt, END_BLOCK)
    && after == before + BlockBits(DYN_TREES, last, p.HeaderBits()
       + (SymbolsBits(syms, p.lt, p.dt) + CodeBits(p.lt, END_BLOCK)))
  }

  /** The choice between the three forms. */
  predicate Chosen(kind: Kind, optLen: int, staticLen: int, storedLen: nat, hasBuf: bool, fixed: bool) {
    && (kind.Stored? <==> hasBuf && storedLen + 4 <= Min(BytesOf(optLen), BytesOf(staticLen)))
    && (kind.Static? ==> fixed || BytesOf(staticLen) <= BytesOf(optLen))
    && (kind.Dynamic? ==> !fixed && BytesOf(optLen) < BytesOf(staticLen))
  }

  /** The bits of a block with its own trees, but for the first three. */
  ghost function PlanLength(p: Plan, syms: seq<Symbol>): nat
    requires p.Valid() && AllCodable(syms, p.lt, p.dt) && HasCode(p.lt, END_BLOCK)
  {
    |p.HeaderBits()| + |SymbolsBits(syms, p.lt, p.dt) + CodeBits(p.lt, END_BLOCK)|
  }

  /**
    A block has the form that is shortest: its bytes, the fixed trees, or the complete codes that were built for it.
   */
  ghost predicate BestForm(kind: Kind, p: Plan, syms: seq<Symbol>, storedLen: nat, hasBuf: bool, fixed: bool) {
    && p.Valid() && p.Canonical() && AllCodable(syms, p.lt, p.dt) && HasCode(p.lt, END_BLOCK)
    && exists lfreq: seq<nat>, dfreq: seq<nat> ::
         && Counted(syms, lfreq, dfreq)
         && Chosen(kind, PlanLength(p, syms), StaticCost(lfreq, dfreq), storedLen, hasBuf, fixed)
  }

  /** At level 0 a block's bytes are copied, if they are still there. */
  predicate Copied(level: nat, hasBuf: bool) {
    level == 0 && hasBuf
  }

  /** The bytes that a block takes at most: what the fixed trees would, or what the data would if they are copied. */
  ghost function MostBytes(copied: bool, lfreq: seq<nat>, dfreq: seq<nat>, storedLen: nat): int
    requires |lfreq| >= L_CODES && |dfreq| >= D_CODES
  {
    if copied then storedLen + 4 else BytesOf(StaticCost(lfreq, dfreq))
  }

  /** The pending buffer has room for the block, in whatever form. */
  ghost predicate Room(w: Writer, copied: bool, lfreq: seq<nat>, dfreq: seq<nat>, storedLen: nat)
    requires |lfreq| >= L_CODES && |dfreq| >= D_CODES
    reads w
  {
    if copied then StoredFits(w, storedLen) else Fits(w, 8 * BytesOf(StaticCost(lfreq, dfreq)) + 128)
  }

  /** Sends a block in the given form. */
  method SendForm(kind: Kind, w: Writer, buf: SymbolBuffer, t: Trees, lmax: nat, dmax: nat, maxBl: nat,
      data: seq<Byte>, last: nat,
                  ghost s: DeflateState, ghost p: Plan, ghost lfreq: seq<nat>, ghost dfreq: seq<nat>,
                      ghost staticLen: nat)
    requires w.Valid() && buf.Valid() && t.Apart(s, w, buf) && last <= 1
    requires kind.Stored? ==> StoredFits(w, |data|)
    requires kind.Static? ==>
               && FixedTrees(t.FixedL(), t.FixedD()) && Counted(buf.Symbols(), lfreq, dfreq)
               && staticLen == StaticCost(lfreq, dfreq) && Fits(w, 3 + staticLen)
    requires kind.Dynamic? ==>
               && p.Valid() && AllCodable(buf.Symbols(), p.lt, p.dt) && HasCode(p.lt, END_BLOCK)
               && p == Plan(Tree(t.lfc[..], t.ldl[..]), Tree(t.dfc[..], t.ddl[..]), Tree(t.bfc[..], t.bdl[..]), lmax,
                  dmax, maxBl)
               && Fits(w, 3 + |p.HeaderBits()| + |SymbolsBits(buf.Symbols(), p.lt, p.dt) + CodeBits(p.lt, END_BLOCK)|)
    modifies w`pending, w`biBuf, w`biValid, w.pendingBuf
    ensures w.Valid()
    ensures kind.Stored? ==>
              w.biValid == 0 && w.Sent() == old(w.Sent()) + StoredBits(|old(w.Sent())|, last, data)
    ensures kind.Static? ==>
              && SentStatic(old(w.Sent()), w.Sent(), last, old(buf.Symbols()), old(t.FixedL()), old(t.FixedD()))
              && |w.Sent()| == |old(w.Sent())| + 3 + staticLen
    ensures kind.Dynamic? ==>
              && SentDynamic(old(w.Sent()), w.Sent(), last, old(buf.Symbols()), p)
              && |w.Sent()| == |old(w.Sent())| + 3 + |p.HeaderBits()|
                               + |SymbolsBits(old(buf.Symbols()), p.lt, p.dt) + CodeBits(p.lt, END_BLOCK)|
  {
    hide ToBits, Pow2, BytesToBits, SymbolsIn, SymbolsBits, AllCodable, Counted, Cost, FixedTrees, CodeBits, LDesc,
         DDesc, HasCode,
         Plan.Valid, Plan.Canonical, Plan.HeaderBits, BlockBits, StoredBits;
    match kind {
      case Stored => SendStoredBlock(w, data, last);
      case Static =>
        SendStaticBlock(w, buf, last, t.lcode, t.llen, t.dcode, t.dlen, lfreq, dfreq, staticLen);
      case Dynamic =>
        SendDynamicBlock(w, buf, last, t.lfc, t.ldl, t.dfc, t.ddl, t.bfc, t.bdl, lmax, dmax, maxBl, p);
    }
  }

  /** Builds the trees of a block, and chooses its form. */
  method PlanForm(s: DeflateState, ghost w: Writer, buf: SymbolBuffer, t: Trees, storedLen: nat, hasBuf: bool,
      level: nat, fixed: bool)
    returns (kind: Kind, lmax: nat, dmax: nat, maxBl: nat, ghost p: Plan)
    requires Recording(s, w, buf, t)
    modifies s, s.heap, s.depth, s.blCount, t.Own()
    ensures w.Valid() && buf.Valid() && t.Apart(s, w, buf) && w.Sent() == old(w.Sent())
    ensures buf.Symbols() == old(buf.Symbols()) && t.FixedL() == old(t.FixedL()) && t.FixedD() == old(t.FixedD())
    ensures if level == 0 then kind == (if hasBuf then Stored else Static)
            else Chosen(kind, s.optLen, s.staticLen, storedLen, hasBuf, fixed)
    ensures level > 0 ==> s.staticLen == StaticCost(old(t.lfc[..]), old(t.dfc[..]))
    ensures level > 0 ==> BestForm(kind, p, buf.Symbols(), storedLen, hasBuf, fixed)
    ensures kind.Dynamic? ==>
              && p.Valid() && AllCodable(buf.Symbols(), p.lt, p.dt) && HasCode(p.lt, END_BLOCK) && p.Canonical()
              && p == Plan(Tree(t.lfc[..], t.ldl[..]), Tree(t.dfc[..], t.ddl[..]), Tree(t.bfc[..], t.bdl[..]), lmax,
                 dmax, maxBl)
              && s.optLen == |p.HeaderBits()| + |SymbolsBits(buf.Symbols(), p.lt, p.dt) + CodeBits(p.lt, END_BLOCK)|
  {
    hide ToBits, Pow2, BytesToBits, SymbolsIn, SymbolsBits, AllCodable, Counted, Cost, FixedTrees, CodeBits, LDesc,
         DDesc, HasCode, Plan.Valid, Plan.Canonical, Plan.HeaderBits;
    lmax, dmax, maxBl := 0, 0, 0;
    kind := if hasBuf then Stored else Static;
    p := *;
    if level > 0 {
      ghost var lfreq, dfreq := t.lfc[..], t.dfc[..];
      lmax, dmax, maxBl, p := PlanBlock(s, t.lfc, t.ldl, t.dfc, t.ddl, t.bfc, t.bdl, buf.Symbols());
      kind := ChooseBlock(s.optLen, s.staticLen, storedLen, hasBuf, fixed);
      assert Chosen(kind, PlanLength(p, buf.Symbols()), StaticCost(lfreq, dfreq), storedLen, hasBuf, fixed);
    }
  }

  /**
    Plans a block, chooses its form and sends it. With trees, the bits sent are as many as the
    compressor's own counters say, and never more than the fixed trees would take, to the byte.
   */
  method SendBestBlock(s: DeflateState, w: Writer, buf: SymbolBuffer, t: Trees, data: seq<Byte>, hasBuf: bool,
      level: nat, fixed: bool, last: nat)
    returns (kind: Kind, ghost p: Plan)
    requires Recording(s, w, buf, t) && last <= 1
    requires Room(w, Copied(level, hasBuf), t.lfc[..], t.dfc[..], |data|)
    modifies w`pending, w`biBuf, w`biValid, w.pendingBuf, s, s.heap, s.depth, s.blCount, t.Own()
    ensures w.Valid() && buf.Valid() && buf.Symbols() == old(buf.Symbols()) && t.FixedL() == old(t.FixedL())
              && t.FixedD() == old(t.FixedD())
    ensures if level == 0 then kind == (if hasBuf then Stored else Static)
            else Chosen(kind, s.optLen, s.staticLen, |data|, hasBuf, fixed)
    ensures level > 0 ==> s.staticLen == StaticCost(old(t.lfc[..]), old(t.dfc[..]))
    ensures level > 0 ==> BestForm(kind, p, old(buf.Symbols()), |data|, hasBuf, fixed)
    ensures kind.Stored? ==>
              w.biValid == 0 && w.Sent() == old(w.Sent()) + StoredBits(|old(w.Sent())|, last, data)
    ensures kind.Static? ==> SentStatic(old(w.Sent()), w.Sent(), last, old(buf.Symbols()), old(t.FixedL()),
              old(t.FixedD()))
    ensures kind.Dynamic? ==> SentDynamic(old(w.Sent()), w.Sent(), last, old(buf.Symbols()), p) && p.Canonical()
    ensures kind.Static? ==> |w.Sent()| == |old(w.Sent())| + 3 + StaticCost(old(t.lfc[..]), old(t.dfc[..]))
    ensures kind.Dynamic? ==> |w.Sent()| == |old(w.Sent())| + 3 + s.optLen
    ensures |w.Sent()| <= |old(w.Sent())| + 10
                          + 8 * MostBytes(Copied(level, hasBuf), old(t.lfc[..]), old(t.dfc[..]), |data|)
  {
    hide ToBits, Pow2, BytesToBits, SymbolsIn, SymbolsBits, AllCodable, Counted, Cost, FixedTrees, CodeBits, LDesc,
         DDesc, HasCode, Plan.Valid, Plan.Canonical, Plan.HeaderBits, BlockBits, StoredBits, SentStatic, SentDynamic,
             BestForm;
    ghost var lfreq, dfreq, staticLen := t.lfc[..], t.dfc[..], StaticCost(t.lfc[..], t.dfc[..]);
    var lmax, dmax, maxBl;
    kind, lmax, dmax, maxBl, p := PlanForm(s, w, buf, t, |data|, hasBuf, level, fixed);
    StoredLength(|old(w.Sent())|, last, data);
    SendForm(kind, w, buf, t, lmax, dmax, maxBl, data, last, s, p, lfreq, dfreq, staticLen);
  }

  /** Sets the first `n` counters to zero. */
  method ZeroFirst(a: array<nat>, n: nat)
    requires n <= a.Length
    modifies a
    ensures forall k :: 0 <= k < n ==> a[k] == 0
  {
    var k := 0;
    while k < n
      invariant 0 <= k <= n && forall j :: 0 <= j < k ==> a[j] == 0
    {
      a[k] := 0;
      k := k + 1;
    }
  }

  lemma CountedNone(lfreq: seq<nat>, dfreq: seq<nat>)
    requires |lfreq| >= L_CODES && |dfreq| >= D_CODES
    requires forall n :: 0 <= n < L_CODES ==> lfreq[n] == if n == END_BLOCK then 1 else 0
    requires forall n :: 0 <= n < D_CODES ==> dfreq[n] == 0
    ensures Counted([], lfreq, dfreq)
  {
  }

  /** Begins a new block (init_block). */
  method InitBlock(s: DeflateState, w: Writer, buf: SymbolBuffer, t: Trees)
    requires t.Apart(s, w, buf) && w.Valid() && buf.Valid() && FixedTrees(t.FixedL(), t.FixedD())
    modifies t.lfc, t.dfc, t.bfc, s`optLen, s`staticLen, buf`symNext
    ensures Recording(s, w, buf, t) && buf.Symbols() == [] && w.Sent() == old(w.Sent())
  {
    hide Counted, FixedTrees, SymbolsIn, BytesToBits, ToBits, Pow2;
    ghost var fl, fd := t.FixedL(), t.FixedD();
    ZeroFirst(t.lfc, L_CODES);
    ZeroFirst(t.dfc, D_CODES);
    ZeroFirst(t.bfc, BL_CODES);
    t.lfc[END_BLOCK] := 1;
    s.optLen, s.staticLen := 0, 0;
    buf.symNext := 0;
    assert t.FixedL() == fl && t.FixedD() == fd;
    assert buf.symBuf[..0] == [];
    NoSymbols(fl, fd);
    CountedNone(t.lfc[..], t.dfc[..]);
  }

  /** Fills up the last byte behind the last block. */
  method EndBlock(w: Writer, last: nat)
    requires w.Valid() && (last == 1 ==> w.pending + (w.biValid + 7) / 8 <= w.pendingBuf.Length)
    modifies w`pending, w`biBuf, w`biValid, w.pendingBuf
    ensures w.Valid() && w.Sent() == old(w.Sent()) + seq(if last == 1 then Padding(|old(w.Sent())|) else 0, _ => false)
    ensures old(w.biValid) == 0 ==> w.biValid == 0 && w.pending == old(w.pending)
  {
    hide ToBits, Pow2, BytesToBits;
    ghost var sent := w.Sent();
    if last == 1 {
      w.BiWindup();
      PaddingIs(|sent|, |w.Sent()| - |sent|, w.pending);
    } else {
      assert sent == sent + seq(0, _ => false);
    }
  }

  /** Begins a new block behind the one that was sent. */
  method NextBlock(s: DeflateState, w: Writer, buf: SymbolBuffer, t: Trees, last: nat)
    requires t.Apart(s, w, buf) && w.Valid() && buf.Valid() && FixedTrees(t.FixedL(), t.FixedD())
    requires last == 1 ==> w.pending + (w.biValid + 7) / 8 <= w.pendingBuf.Length
    modifies t.lfc, t.dfc, t.bfc, s`optLen, s`staticLen, buf`symNext, w`pending, w`biBuf, w`biValid, w.pendingBuf
    ensures Recording(s, w, buf, t) && buf.Symbols() == [] && t.FixedL() == old(t.FixedL())
              && t.FixedD() == old(t.FixedD())
    ensures w.Sent() == old(w.Sent()) + seq(if last == 1 then Padding(|old(w.Sent())|) else 0, _ => false)
    ensures old(w.biValid) == 0 ==> w.biValid == 0 && w.pending == old(w.pending)
  {
    hide Counted, FixedTrees, BytesToBits, ToBits, Pow2, SymbolsIn;
    EndBlock(w, last);
    ghost var fl, fd := t.FixedL(), t.FixedD();
    InitBlock(s, w, buf, t);
    assert t.FixedL() == fl && t.FixedD() == fd;
  }

  /**
    Writes out a block and begins the next one: `sent` is what was sent with the block, in the best of
    the three forms, and the last block is filled up to a whole byte.
   */
  method FlushBlock(s: DeflateState, w: Writer, buf: SymbolBuffer, t: Trees, data: seq<Byte>, hasBuf: bool, level: nat,
      fixed: bool, last: nat)
    returns (kind: Kind, ghost p: Plan, ghost optLen: int, ghost sent: seq<bool>)
    requires Recording(s, w, buf, t) && last <= 1
    requires Room(w, Copied(level, hasBuf), t.lfc[..], t.dfc[..], |data|)
    modifies w`pending, w`biBuf, w`biValid, w.pendingBuf, s, s.heap, s.depth, s.blCount, t.Own(), buf`symNext
    ensures Recording(s, w, buf, t) && buf.Symbols() == [] && t.FixedL() == old(t.FixedL())
              && t.FixedD() == old(t.FixedD())
    ensures if level == 0 then kind == (if hasBuf then Stored else Static)
            else Chosen(kind, optLen, StaticCost(old(t.lfc[..]), old(t.dfc[..])), |data|, hasBuf, fixed)
    ensures kind.Stored? ==> w.biValid == 0 && sent == old(w.Sent()) + StoredBits(|old(w.Sent())|, last, data)
    ensures kind.Static? ==> SentStatic(old(w.Sent()), sent, last, old(buf.Symbols()), old(t.FixedL()), old(t.FixedD()))
    ensures kind.Dynamic? ==> SentDynamic(old(w.Sent()), sent, last, old(buf.Symbols()), p) && p.Canonical()
    ensures kind.Static? ==> |sent| == |old(w.Sent())| + 3 + StaticCost(old(t.lfc[..]), old(t.dfc[..]))
    ensures kind.Dynamic? ==> |sent| == |old(w.Sent())| + 3 + optLen
    ensures w.Sent() == sent + seq(if last == 1 then Padding(|sent|) else 0, _ => false)
    ensures |w.Sent()| <= |old(w.Sent())| + 17
                          + 8 * MostBytes(Copied(level, hasBuf), old(t.lfc[..]), old(t.dfc[..]), |data|)
    ensures level > 0 ==> BestForm(kind, p, old(buf.Symbols()), |data|, hasBuf, fixed)
  {
    hide ToBits, Pow2, BytesToBits, SymbolsIn, SymbolsBits, AllCodable, Counted, Cost, FixedTrees, CodeBits, LDesc,
         DDesc, HasCode,
         Plan.Valid, Plan.Canonical, Plan.HeaderBits, BlockBits, StoredBits, SentStatic, SentDynamic, BestForm;
    kind, p := SendBestBlock(s, w, buf, t, data, hasBuf, level, fixed, last);
    optLen, sent := s.optLen, w.Sent();
    NextBlock(s, w, buf, t, last);
  }
}
