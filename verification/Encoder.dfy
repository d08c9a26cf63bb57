/**
  Recording symbols and writing them out block by block, through the pending buffer (deflate.c and trees.c of zlib).
 */
module Encoder {
  import opened Arithmetic
  import opened Bits
  import opened BitWriter
  import opened BlockHeader
  import opened BlockStream
  import opened BlockSymbols
  import opened DeflateBlock
  import opened FlushBlock
  import opened Lz77
  import opened RunLengths
  import opened TreeBuild
  import opened TreeHeap
  import HuffmanCode

  // ---------- how many bits a block can take ----------

  lemma FixedLengthBound(lt: Tree, dt: Tree, n: nat)
    requires FixedTrees(lt, dt)
    ensures n < L_CODES ==> HasCode(lt, n) && lt.len[n] <= 9 && (n >= 256 ==> lt.len[n] <= 8)
    ensures n < D_CODES ==> HasCode(dt, n) && dt.len[n] == 5
    ensures lt.len[END_BLOCK] == 7
  {
    hide HuffmanCode.Codeword, Reverse, Pow2;
    if n < L_CODES {
      assert HuffmanCode.Coded(lt.len, n);
    }
    if n < D_CODES {
      assert dt.code[n] == Reverse(5, n);
    }
  }

  /** With the fixed trees no symbol takes more than 31 bits. */
  lemma SymbolBound(s: Symbol, lt: Tree, dt: Tree)
    requires FixedTrees(lt, dt) && Codable(s, lt, dt)
    ensures |SymbolBits(s, lt, dt)| <= 31
  {
    hide FixedTrees, HasCode, LengthCode, DistCode, ExtraL, ExtraD, ToBits;
    match s
    case Literal(c) => FixedLengthBound(lt, dt, c);
    case Match(dist, lc) =>
      FixedLengthBound(lt, dt, LengthCode(lc) + LITERALS + 1);
      FixedLengthBound(lt, dt, DistCode(dist - 1));
      LengthFits(lc);
      DistFits(dist - 1);
  }

  lemma {:induction false} SymbolsBound(syms: seq<Symbol>, lt: Tree, dt: Tree)
    requires FixedTrees(lt, dt) && AllCodable(syms, lt, dt)
    ensures |SymbolsBits(syms, lt, dt)| <= 31 * |syms|
  {
    hide FixedTrees, Codable, SymbolBits;
    if syms != [] {
      SymbolBound(syms[0], lt, dt);
      SymbolsBound(syms[1..], lt, dt);
    }
  }

  /** So a pending buffer of four bytes a symbol is large enough. */
  lemma StaticBound(syms: seq<Symbol>, lfreq: seq<nat>, dfreq: seq<nat>, lt: Tree, dt: Tree)
    requires FixedTrees(lt, dt) && Counted(syms, lfreq, dfreq)
    ensures StaticCost(lfreq, dfreq) <= 31 * |syms| + 7
  {
    hide FixedTrees, Counted, AllCodable, SymbolsBits, Cost, HasCode, LDesc, DDesc, ToBits;
    CountedValid(syms, lfreq, dfreq);
    FixedCodable(lt, dt, syms);
    FixedSizes(lt, dt);
    BlockLength(syms, lfreq, dfreq, lt, dt);
    SymbolsBound(syms, lt, dt);
    FixedLengthBound(lt, dt, END_BLOCK);
  }

  // ---------- the parts of a new stream ----------

  /** The constant tables of the fixed trees. */
  method FixedArrays() returns (lcode: array<nat>, llen: array<nat>, dcode: array<nat>, dlen: array<nat>)
    ensures fresh(lcode) && fresh(llen) && fresh(dcode) && fresh(dlen)
              && FixedTrees(Tree(lcode[..], llen[..]), Tree(dcode[..], dlen[..]))
    ensures lcode != llen && lcode != dcode && lcode != dlen && llen != dcode && llen != dlen && dcode != dlen
  {
    hide HuffmanCode.SentCode, Reverse;
    var l := FixedLengths();
    forall n: nat | n < L_CODES + 2
      ensures HuffmanCode.Coded(l, n)
    {
    }
    lcode := new nat[L_CODES + 2](n requires 0 <= n < L_CODES + 2 => HuffmanCode.SentCode(l, n));
    llen := new nat[L_CODES + 2](n requires 0 <= n < L_CODES + 2 => l[n]);
    dcode := new nat[D_CODES](n requires 0 <= n < D_CODES => Reverse(5, n));
    dlen := new nat[D_CODES](_ => 5);
    assert llen[..] == l && dlen[..] == FixedDistLengths();
  }

  /** The trees have the right sizes, and no two of their arrays are the same. */
  ghost predicate Shaped(t: FlushBlock.Trees) {
    && t.lfc.Length == t.ldl.Length == HEAP_SIZE && t.dfc.Length == t.ddl.Length == 2 * D_CODES + 1
    && t.bfc.Length == t.bdl.Length == 2 * BL_CODES + 1
    && t.lfc != t.ldl && t.dfc != t.ddl && t.bfc != t.bdl && t.Const() !! t.Own()
    && t.lfc !in {t.dfc, t.ddl, t.bfc, t.bdl} && t.ldl !in {t.dfc, t.ddl, t.bfc, t.bdl}
    && t.dfc !in {t.bfc, t.bdl} && t.ddl !in {t.bfc, t.bdl}
  }

  lemma ShapedFacts(t: FlushBlock.Trees)
    requires Shaped(t)
    ensures t.lfc != t.dfc && t.lfc.Length >= L_CODES && t.dfc.Length >= D_CODES && t.bfc.Length >= BL_CODES
  {
  }

  lemma ApartIf(t: FlushBlock.Trees, s: DeflateState, w: Writer, buf: SymbolBuffer)
    requires Shaped(t) && s.Valid() && t.Own() + t.Const() !! {s.heap, s.depth, s.blCount}
    requires forall a :: a in t.Own() + t.Const() + {s.heap, s.depth, s.blCount} ==>
              w.Apart(a) && (buf.symBuf as object) != (a as object)
    requires buf.lfreq == t.lfc && buf.dfreq == t.dfc && buf.symBuf != w.pendingBuf
    ensures t.Apart(s, w, buf)
  {
    assert forall a :: a in t.Own() ==> a !in {s.heap, s.depth, s.blCount};
  }

  /** The trees of a first block. */
  method NewTrees() returns (t: FlushBlock.Trees)
    ensures forall a :: a in t.Own() + t.Const() ==> fresh(a)
    ensures FixedTrees(t.FixedL(), t.FixedD())
    ensures Shaped(t)
    ensures forall n :: 0 <= n < L_CODES ==> t.lfc[n] == if n == END_BLOCK then 1 else 0
    ensures forall n :: 0 <= n < D_CODES ==> t.dfc[n] == 0
    ensures forall n :: 0 <= n < BL_CODES ==> t.bfc[n] == 0
  {
    hide FixedTrees;
    var lc, ln, dc, dn := FixedArrays();
    var l := new nat[HEAP_SIZE](n => if n == END_BLOCK then 1 else 0);
    var d := new nat[2 * D_CODES + 1](_ => 0);
    var b := new nat[2 * BL_CODES + 1](_ => 0);
    var ll := new nat[HEAP_SIZE];
    var dl := new nat[2 * D_CODES + 1];
    var bl := new nat[2 * BL_CODES + 1];
    t := FlushBlock.Trees(l, ll, d, dl, b, bl, lc, ln, dc, dn);
  }

  lemma Begun(s: DeflateState, w: Writer, buf: SymbolBuffer, t: FlushBlock.Trees)
    requires Recording(s, w, buf, t) && w.Sent() == []
    ensures BytesToBits([]) + w.Sent() == [] && w.pending == 0 && w.biValid == 0
  {
    hide FlushBlock.Trees.Apart, FixedTrees, Counted, SymbolsIn, ToBits, Pow2;
    assert |w.Sent()| == 8 * w.pending + w.biValid;
  }

  /** The parts of a new stream. */
  method NewParts(size: nat) returns (s: DeflateState, w: Writer, buf: SymbolBuffer, t: FlushBlock.Trees)
    requires size >= 1
    ensures Recording(s, w, buf, t) && w.Sent() == [] && buf.Symbols() == []
    ensures w.pendingBuf.Length == 4 * size && buf.symEnd == 3 * (size - 1)
    ensures fresh(s) && fresh(w) && fresh(buf) && fresh(w.pendingBuf) && fresh(buf.symBuf) && fresh(Arrays(t))
    ensures fresh(s.heap) && fresh(s.depth) && fresh(s.blCount)
  {
    hide FixedTrees, FlushBlock.Trees.Apart, Counted, Shaped, BytesToBits, ToBits, SymbolsIn;
    t := NewTrees();
    ShapedFacts(t);
    s := new DeflateState();
    w := new Writer(4 * size);
    buf := new SymbolBuffer(size, t.lfc, t.dfc);
    assert forall a :: a in t.Own() + t.Const() ==> a !in {s.heap, s.depth, s.blCount};
    assert forall a :: a in t.Own() + t.Const() + {s.heap, s.depth, s.blCount} ==>
           w.Apart(a) && (buf.symBuf as object) != (a as object);
    ApartIf(t, s, w, buf);
  }

  lemma PowerOfSize(memLevel: nat)
    requires 1 <= memLevel
    ensures Pow2(memLevel + 6) >= 128
  {
    Pow2Monotone(7, memLevel + 6);
    assert Pow2(7) == 128;
  }

  /** What a block stands for: its symbols, or its bytes as literals if they are copied whatever the symbols are. */
  ghost function Stands(copied: bool, syms: seq<Symbol>, data: seq<Byte>): seq<Symbol> {
    if copied then Literals(data) else syms
  }

  /** Recording symbols, and writing them out. */
  class Encoder {
    const s: DeflateState
    const w: Writer
    const buf: SymbolBuffer
    const t: FlushBlock.Trees
    const litBufsize: nat
    var out: seq<Byte>
    ghost var done: seq<Symbol>
    ghost var blocks: seq<Block>
    ghost const Repr: set<object>

    /** An empty stream. */
    constructor (memLevel: nat)
      requires 1 <= memLevel <= 9
      ensures Open() && done == [] && blocks == [] && out == [] && w.biValid == 0
      ensures fresh(Repr) && this in Repr && litBufsize == Pow2(memLevel + 6)
    {
      hide FlushBlock.Trees.Apart, FixedTrees, Counted, Lz77.Expand, Expandable, SymbolsIn, BytesToBits, ToBits, Pow2;
      var state, writer, buffer, trees := NewParts(Pow2(memLevel + 6));
      s, w, buf, t := state, writer, buffer, trees;
      litBufsize := Pow2(memLevel + 6);
      out, done, blocks := [], [], [];
      Repr := {this, state, writer, buffer, writer.pendingBuf, buffer.symBuf, state.heap, state.depth, state.blCount}
              + Arrays(trees);
      new;
      PowerOfSize(memLevel);
      Begun(s, w, buf, t);
    }

    /** All bits so far. */
    ghost function Bits(): seq<bool>
      requires w.Valid()
      reads this, w, w.pendingBuf
    {
      BytesToBits(out) + w.Sent()
    }

    /** All parts belong to this object. */
    ghost predicate Inside() {
      && {this, s, w, buf, w.pendingBuf, buf.symBuf, s.heap, s.depth, s.blCount} <= Repr && Arrays(t) <= Repr
    }

    /** The pending buffer is empty, and what was written are the blocks so far. */
    ghost predicate Valid()
      reads this, Repr
    {
      && Inside() && Recording(s, w, buf, t) && w.pending == 0 && w.biValid < 8
      && litBufsize >= 128 && w.pendingBuf.Length == 4 * litBufsize && buf.symEnd == 3 * (litBufsize - 1)
      && Stream(blocks, Bits(), done) && !Closed(blocks)
    }

    /** Between two blocks. */
    ghost predicate Open()
      reads this, Repr
    {
      Valid() && buf.Symbols() == []
    }

    /** There are only whole bytes so far. */
    predicate OnByte()
      reads w`biValid
    {
      w.biValid == 0
    }

    /** The pending buffer can take a block of `n` bytes that is stored. */
    predicate CanCopy(n: nat)
      reads w`biValid
    {
      n + 5 + (if w.biValid == 0 then 0 else 1) <= 4 * litBufsize
    }

    /** After the last block: the output is the whole stream. */
    ghost predicate Ended()
      reads this
    {
      Expandable(done) && Encodes(blocks, out, Lz77.Expand(done))
    }

    /** Moves the pending bytes to the output (flush_pending, when there is room for them). */
    method FlushPending()
      requires Recording(s, w, buf, t) && w.pending + w.biValid / 8 <= w.pendingBuf.Length
      modifies `out, w`pending, w`biBuf, w`biValid, w.pendingBuf
      ensures Recording(s, w, buf, t) && w.pending == 0 && w.biValid < 8 && Bits() == old(Bits())
                && buf.Symbols() == old(buf.Symbols())
      ensures old(w.biValid) % 8 == 0 ==> w.biValid == 0
    {
      hide ToBits, BytesToBits, Pow2, FixedTrees, Counted, SymbolsIn, FlushBlock.Trees.Apart;
      ApartParts(t, s, w, buf);
      w.BiFlush();
      ghost var o: seq<nat>, b: seq<nat>, r := out, w.pendingBuf[..w.pending], ToBits(w.biBuf, w.biValid);
      BytesToBitsConcat(o, b);
      out := out + w.pendingBuf[..w.pending];
      w.pending := 0;
      NoBytes(w.pendingBuf[..0]);
      Aligned(|old(Bits())|, |o| + old(w.pending), old(w.biValid));
      Aligned(|old(Bits())|, |out|, w.biValid);
      assert BytesToBits(o) + BytesToBits(b) + r == BytesToBits(o) + (BytesToBits(b) + r);
    }

    /** The block in the buffer is never too large for the pending buffer. */
    lemma RoomForBlock()
      requires Valid()
      ensures var n := 8 * MostBytes(false, t.lfc[..], t.dfc[..], 0);
              Fits(w, n + 128) && |w.Sent()| + n + 17 + 64 <= 8 * w.pendingBuf.Length
    {
      hide FixedTrees, Counted, SymbolsIn, StaticCost, Expandable, Lz77.Expand, BytesToBits, ToBits, Pow2, Stream;
      SymbolsInLength(buf.symBuf[..buf.symNext]);
      StaticBound(buf.Symbols(), t.lfc[..], t.dfc[..], t.FixedL(), t.FixedD());
    }

    /** Records a symbol; the result says whether the block must be written out. */
    method Record(sym: Symbol) returns (full: bool)
      requires Valid() && ValidSymbol(sym) && buf.symNext < buf.symEnd
      modifies buf`symNext, buf.symBuf, t.lfc, t.dfc
      ensures Valid() && buf.Symbols() == old(buf.Symbols()) + [sym] && (full <==> buf.symNext == buf.symEnd)
    {
      hide FlushBlock.Trees.Apart, FixedTrees, Counted, SymbolsIn, BytesToBits, ToBits, Stream, Closed;
      ApartParts(t, s, w, buf);
      match sym {
        case Literal(c) => full := buf.TallyLit(c);
        case Match(dist, lc) => full := buf.TallyDist(dist, lc);
      }
    }

    /** Records the symbols of a block. */
    method RecordAll(syms: seq<Symbol>)
      requires Open() && |syms| < litBufsize && Expandable(done + syms)
      modifies buf`symNext, buf.symBuf, t.lfc, t.dfc
      ensures Valid() && buf.Symbols() == syms
    {
      hide FlushBlock.Trees.Apart, FixedTrees, Counted, SymbolsIn, BytesToBits, ToBits, Stream, Closed, Expandable;
      var k := 0;
      while k < |syms|
        invariant 0 <= k <= |syms| && Valid() && buf.Symbols() == syms[..k]
      {
        assert done + syms == done + syms[..k] + [syms[k]] + syms[k + 1..];
        SymbolValid(done + syms[..k], syms[k], syms[k + 1..]);
        SymbolsInLength(buf.symBuf[..buf.symNext]);
        var full := Record(syms[k]);
        k := k + 1;
      }
      assert syms[..k] == syms;
    }

    /** Sends the block in the buffer. */
    method SendBlock(data: seq<Byte>, hasBuf: bool, level: nat, fixed: bool, last: nat)
      returns (kind: Kind, ghost p: Plan, ghost after: seq<bool>, ghost pad: seq<bool>)
      requires Valid() && last <= 1
      requires Copied(level, hasBuf) ==> CanCopy(|data|)
      modifies w`pending, w`biBuf, w`biValid, w.pendingBuf, s, s.heap, s.depth, s.blCount, t.Own(), buf`symNext
      ensures Recording(s, w, buf, t) && buf.Symbols() == [] && w.pending + w.biValid / 8 <= w.pendingBuf.Length
      ensures Written(kind, old(w.Sent()), after, last, old(buf.Symbols()), data, p, old(t.FixedL()), old(t.FixedD()))
      ensures level > 0 ==> BestForm(kind, p, old(buf.Symbols()), |data|, hasBuf, fixed)
      ensures (kind.Stored? ==> hasBuf) && (fixed || level == 0 ==> !kind.Dynamic?)
      ensures w.Sent() == after + pad && |pad| < 8 && (last == 0 ==> pad == []) && (last == 1 ==> w.biValid % 8 == 0)
      ensures Copied(level, hasBuf) ==> kind.Stored? && w.biValid == 0
    {
      hide FlushBlock.Trees.Apart, FixedTrees, Counted, SymbolsIn, BytesToBits, ToBits, Expandable, Lz77.Expand, Pow2,
           StaticCost, SentStatic, SentDynamic, StoredBits, Plan.Canonical, Stream,
           Closed, BestForm;
      RoomForBlock();
      ghost var optLen: int;
      kind, p, optLen, after := FlushBlock.FlushBlock(s, w, buf, t, data, hasBuf, level, fixed, last);
      pad := seq(if last == 1 then Padding(|after|) else 0, _ => false);
      assert |w.Sent()| == 8 * w.pending + w.biValid;
      Aligned(|after| + |pad|, w.pending, w.biValid);
    }

    /** Sends the block in the buffer and moves it to the output. */
    method MoveBlock(data: seq<Byte>, hasBuf: bool, level: nat, fixed: bool, last: nat)
      returns (kind: Kind, ghost p: Plan, ghost after: seq<bool>, ghost pad: seq<bool>)
      requires Valid() && last <= 1
      requires Copied(level, hasBuf) ==> CanCopy(|data|)
      modifies `out, w`pending, w`biBuf, w`biValid, w.pendingBuf, s, s.heap, s.depth, s.blCount, t.Own(), buf`symNext
      ensures Recording(s, w, buf, t) && buf.Symbols() == [] && w.pending == 0 && w.biValid < 8
      ensures Written(kind, old(w.Sent()), after, last, old(buf.Symbols()), data, p, old(t.FixedL()), old(t.FixedD()))
      ensures level > 0 ==> BestForm(kind, p, old(buf.Symbols()), |data|, hasBuf, fixed)
      ensures (kind.Stored? ==> hasBuf) && (fixed || level == 0 ==> !kind.Dynamic?)
                && (Copied(level, hasBuf) ==> kind.Stored?)
      ensures Bits() == BytesToBits(old(out)) + after + pad && |pad| < 8 && (last == 0 ==> pad == [])
      ensures last == 1 || Copied(level, hasBuf) ==> w.biValid == 0
    {
      hide FlushBlock.Trees.Apart, FixedTrees, Counted, SymbolsIn, BytesToBits, ToBits, Expandable, Lz77.Expand, Pow2,
           Written, Stream, Closed, BestForm;
      ghost var o := BytesToBits(out);
      kind, p, after, pad := SendBlock(data, hasBuf, level, fixed, last);
      assert o + (after + pad) == o + after + pad;
      FlushPending();
    }

    /** Puts out the block in the buffer, as the stream's next one. */
    method EmitBlock(data: seq<Byte>, hasBuf: bool, level: nat, fixed: bool, last: nat)
      returns (ghost sent: seq<bool>, ghost pad: seq<bool>)
      requires Valid() && last <= 1 && Expandable(done)
                && Expandable(done + Stands(Copied(level, hasBuf), buf.Symbols(), data))
      requires hasBuf ==>
                 |data| < 0x1_0000
                 && Lz77.Expand(done + Stands(Copied(level, hasBuf), buf.Symbols(), data)) == Lz77.Expand(done) + data
      requires Copied(level, hasBuf) ==> CanCopy(|data|)
      modifies Repr
      ensures Inside() && Recording(s, w, buf, t) && w.pending == 0 && w.biValid < 8 && buf.Symbols() == []
      ensures done == old(done + Stands(Copied(level, hasBuf), buf.Symbols(), data))
      ensures Bits() == sent + pad && |pad| < 8 && (last == 0 ==> pad == [])
      ensures last == 1 || Copied(level, hasBuf) ==> w.biValid == 0
      ensures |blocks| == |old(blocks)| + 1 && blocks[..|old(blocks)|] == old(blocks)
      ensures level > 0 ==> Best(blocks[|blocks| - 1], hasBuf, fixed)
      ensures Stream(blocks, sent, done) && Closed(blocks) == (last == 1)
    {
      hide FlushBlock.Trees.Apart, FixedTrees, Counted, SymbolsIn, BytesToBits, ToBits, Expandable, Lz77.Expand, Pow2,
           StaticCost, Written, Stream, Closed, Stands, BestForm;
      ghost var before, o, syms, lt, dt := w.Sent(), BytesToBits(out), buf.Symbols(), t.FixedL(), t.FixedD();
      var kind;
      ghost var p, after;
      kind, p, after, pad := MoveBlock(data, hasBuf, level, fixed, last);
      sent := o + after;
      ghost var b := Block(kind, last, o + before, done, Stands(Copied(level, hasBuf), syms, data), data, p, lt, dt);
      StandsForSyms(level, hasBuf, syms, data);
      WrittenAs(kind, before, after, last, syms, data, p, lt, dt, Copied(level, hasBuf));
      AppendBlock(blocks, o, before, after, b);
      done, blocks := done + b.syms, blocks + [b];
    }

    /**
      Writes out a block: its symbols, and its bytes if they are still in the window (`hasBuf`). At level 0 those are
      copied.
     */
    method WriteBlock(syms: seq<Symbol>, data: seq<Byte>, hasBuf: bool, level: nat, fixed: bool, last: nat)
      requires Open() && last <= 1 && |syms| < litBufsize
                && Expandable(done + Stands(Copied(level, hasBuf), syms, data))
      requires Expandable(done + syms) && Expandable(done)
      requires hasBuf ==>
                 |data| < 0x1_0000 && Lz77.Expand(done + Stands(Copied(level, hasBuf), syms, data))
                     == Lz77.Expand(done) + data
      requires Copied(level, hasBuf) ==> CanCopy(|data|)
      modifies Repr
      ensures done == old(done) + Stands(Copied(level, hasBuf), syms, data)
      ensures |blocks| == |old(blocks)| + 1 && blocks[..|old(blocks)|] == old(blocks)
      ensures level > 0 ==> Best(blocks[|blocks| - 1], hasBuf, fixed)
      ensures if last == 0 then Open() else Ended()
      ensures Copied(level, hasBuf) ==> w.biValid == 0
    {
      hide FlushBlock.Trees.Apart, FixedTrees, Counted, SymbolsIn, BytesToBits, ToBits, Expandable, Lz77.Expand, Pow2,
           Stream, Closed, Stands, BestForm, Best;
      RecordAll(syms);
      ghost var sent, pad := EmitBlock(data, hasBuf, level, fixed, last);
      if last == 1 {
        NoBytes(w.pendingBuf[..0]);
        assert w.Sent() == [];
        assert BytesToBits(out) + [] == BytesToBits(out);
        StreamExpands(blocks, sent, done);
        EncodesIf(blocks, out, Lz77.Expand(done), sent, pad, done);
      } else {
        assert sent + pad == sent;
      }
    }
  }

  lemma StandsForSyms(level: nat, hasBuf: bool, syms: seq<Symbol>, data: seq<Byte>)
    ensures level > 0 ==> Stands(Copied(level, hasBuf), syms, data) == syms
  {
  }

  /** What a stored block looks like does not depend on its symbols. */
  lemma WrittenAs(kind: Kind, before: seq<bool>, after: seq<bool>, last: nat, syms: seq<Symbol>, data: seq<Byte>,
                  p: Plan, lt: Tree, dt: Tree, copied: bool)
    requires Written(kind, before, after, last, syms, data, p, lt, dt) && (copied ==> kind.Stored?)
    ensures Written(kind, before, after, last, Stands(copied, syms, data), data, p, lt, dt)
  {
    hide StoredBits, SentStatic, SentDynamic, FixedTrees, Plan.Canonical;
  }

  /** The arrays of the trees, as objects. */
  ghost function Arrays(t: FlushBlock.Trees): set<object> {
    {t.lfc, t.ldl, t.dfc, t.ddl, t.bfc, t.bdl, t.lcode, t.llen, t.dcode, t.dlen}
  }

  lemma Aligned(n: nat, bytes: nat, bits: nat)
    requires n == 8 * bytes + bits
    ensures n % 8 == bits % 8
  {
  }

  /** The pending buffer is none of the other arrays. */
  lemma ApartParts(t: FlushBlock.Trees, s: DeflateState, w: Writer, buf: SymbolBuffer)
    requires t.Apart(s, w, buf)
    ensures buf.symBuf != w.pendingBuf && w.Apart(t.lfc) && w.Apart(t.dfc) && w.Apart(t.bfc) && buf.lfreq == t.lfc
              && buf.dfreq == t.dfc
    ensures w.Apart(t.lcode) && w.Apart(t.llen) && w.Apart(t.dcode) && w.Apart(t.dlen)
    ensures t.lfc !in {t.dfc, t.bfc} && t.dfc != t.bfc && t.Const() !! {t.lfc, t.dfc, t.bfc}
    ensures forall a :: a in t.Const() + {t.lfc, t.dfc, t.bfc} ==> (buf.symBuf as object) != (a as object)
  {
  }

  lemma NoBytes(b: seq<nat>)
    requires b == []
    ensures BytesToBits(b) == []
  {
  }
}
