/** Recording the symbols of a block and sending them (_tr_tally and compress_block in zlib's trees.c). */
module DeflateBlock {
  import opened Arithmetic
  import opened Bits
  import opened BitWriter
  import opened BlockSymbols
  import opened RunLengths
  import opened TreeBuild
  import opened TreeHeap
  import BitLengths
  import HuffmanCode
  import TreeCodes

  // ---------- the symbol buffer ----------

  /** The symbols that the buffer holds, three bytes each. */
  function SymbolsIn(buf: seq<Byte>): seq<Symbol>
  {
    if |buf| < 3 then []
    else
      SymbolsIn(buf[..|buf| - 3]) + [SymbolAt(buf[|buf| - 3], buf[|buf| - 2], buf[|buf| - 1])]
  }

  /** What a tally of `dist` and `lc` stands for. */
  function Tallied(dist: nat, lc: nat): Symbol {
    if dist == 0 then Literal(lc) else Match(dist, lc)
  }

  function SymbolAt(lo: Byte, hi: Byte, lc: Byte): Symbol {
    Tallied(lo + hi * 256, lc)
  }

  lemma SymbolsInAppend(buf: seq<Byte>, lo: Byte, hi: Byte, lc: Byte)
    ensures SymbolsIn(buf + [lo, hi, lc]) == SymbolsIn(buf) + [SymbolAt(lo, hi, lc)]
  {
    var b := buf + [lo, hi, lc];
    assert b[..|b| - 3] == buf;
  }

  /** The buffer of a block's symbols, and the counters that every tally keeps in step with it. */
  class SymbolBuffer {
    const symBuf: array<Byte>
    var symNext: nat
    const symEnd: nat
    const lfreq: array<nat>
    const dfreq: array<nat>

    predicate Valid()
      reads this
    {
      symNext % 3 == 0 && symEnd % 3 == 0 && symNext <= symEnd && symEnd + 3 <= symBuf.Length && lfreq != dfreq
      && (symBuf as object) != (lfreq as object) && (symBuf as object) != (dfreq as object)
      && lfreq.Length >= L_CODES && dfreq.Length >= D_CODES
    }

    ghost function Symbols(): seq<Symbol>
      reads this, symBuf
      requires Valid()
    {
      SymbolsIn(symBuf[..symNext])
    }

    /** The counters agree with the symbols in the buffer. */
    ghost predicate InStep()
      reads this, symBuf, lfreq, dfreq
    {
      Valid() && Counted(Symbols(), lfreq[..], dfreq[..])
    }

    /** An empty block. */
    constructor (litBufsize: nat, l: array<nat>, d: array<nat>)
      requires litBufsize >= 1 && l != d && l.Length >= L_CODES && d.Length >= D_CODES
      requires (forall n :: 0 <= n < L_CODES ==> l[n] == if n == END_BLOCK then 1 else 0)
      requires (forall n :: 0 <= n < D_CODES ==> d[n] == 0)
      ensures InStep() && Symbols() == [] && lfreq == l && dfreq == d && fresh(symBuf) && symEnd == (litBufsize - 1) * 3
    {
      symBuf := new Byte[litBufsize * 3];
      symNext, symEnd := 0, (litBufsize - 1) * 3;
      lfreq, dfreq := l, d;
    }

    /** Puts three bytes into the buffer. */
    method Put(lo: Byte, hi: Byte, lc: Byte)
      requires Valid() && symNext < symEnd
      modifies `symNext, symBuf
      ensures Valid() && Symbols() == old(Symbols()) + [SymbolAt(lo, hi, lc)]
      ensures symNext == old(symNext) + 3
    {
      ghost var b := symBuf[..symNext];
      symBuf[symNext], symBuf[symNext + 1], symBuf[symNext + 2] := lo, hi, lc;
      symNext := symNext + 3;
      assert symBuf[..symNext] == b + [lo, hi, lc];
      SymbolsInAppend(b, lo, hi, lc);
    }

    /** Records a literal; the result says whether the block must be flushed. */
    method TallyLit(c: Byte) returns (flush: bool)
      requires InStep() && symNext < symEnd
      modifies `symNext, symBuf, lfreq
      ensures InStep() && Symbols() == old(Symbols()) + [Literal(c)] && (flush <==> symNext == symEnd)
    {
      hide Counted, SymbolsIn;
      ghost var syms, l, d := Symbols(), lfreq[..], dfreq[..];
      Put(0, 0, c);
      lfreq[c] := lfreq[c] + 1;
      flush := symNext == symEnd;
      CountedNext(syms, l, d, Literal(c), lfreq[..], dfreq[..]);
    }

    /** Records a match of length `lc + 3`; the result says whether the block must be flushed. */
    method TallyDist(distance: nat, lc: Byte) returns (flush: bool)
      requires InStep() && symNext < symEnd && 1 <= distance <= 0x8000
      modifies `symNext, symBuf, lfreq, dfreq
      ensures InStep() && Symbols() == old(Symbols()) + [Match(distance, lc)] && (flush <==> symNext == symEnd)
    {
      hide Counted, SymbolsIn, LengthCode, DistCode;
      ghost var syms, l, d := Symbols(), lfreq[..], dfreq[..];
      Put(distance % 256, distance / 256, lc);
      var dist := distance - 1;
      lfreq[LengthCode(lc) + LITERALS + 1] := lfreq[LengthCode(lc) + LITERALS + 1] + 1;
      dfreq[DistCode(dist)] := dfreq[DistCode(dist)] + 1;
      flush := symNext == symEnd;
      CountedNext(syms, l, d, Match(distance, lc), lfreq[..], dfreq[..]);
    }
  }

  lemma CountedNext(syms: seq<Symbol>, l: seq<nat>, d: seq<nat>, s: Symbol, l': seq<nat>, d': seq<nat>)
    requires Counted(syms, l, d) && ValidSymbol(s) && |l'| == |l| && |d'| == |d|
    requires l' == l[LSym(s) := l[LSym(s)] + 1]
    requires d' == if s.Match? then d[DistCode(s.dist - 1) := d[DistCode(s.dist - 1)] + 1] else d
    ensures Counted(syms + [s], l', d')
  {
    hide DistCode, LengthCode;
    var all := syms + [s];
    assert all[..|all| - 1] == syms;
  }

  // ---------- sending the symbols ----------

  /** Sends a codeword (send_code). */
  method SendCode(w: Writer, code: array<nat>, len: array<nat>, n: nat)
    requires w.Valid() && w.Apart(code) && w.Apart(len) && HasCode(Tree(code[..], len[..]), n) && Fits(w, len[n])
    modifies w`pending, w`biBuf, w`biValid, w.pendingBuf
    ensures w.Valid() && w.Sent() == old(w.Sent()) + CodeBits(Tree(code[..], len[..]), n)
    ensures code[..] == old(code[..]) && len[..] == old(len[..])
    ensures 8 * w.pending + w.biValid == old(8 * w.pending + w.biValid) + len[n]
  {
    w.SendBits(code[n], len[n]);
  }

  /** Sends extra bits if there are any. */
  method SendExtra(w: Writer, val: nat, extra: nat)
    requires w.Valid() && extra <= 13 && val < Pow2(extra) && Fits(w, extra)
    modifies w`pending, w`biBuf, w`biValid, w.pendingBuf
    ensures w.Valid() && w.Sent() == old(w.Sent()) + ToBits(val, extra)
    ensures 8 * w.pending + w.biValid == old(8 * w.pending + w.biValid) + extra
  {
    if extra != 0 {
      w.SendBits(val, extra);
    }
  }

  method SendLength(w: Writer, lc: Byte, code: array<nat>, len: array<nat>)
    requires w.Valid() && w.Apart(code) && w.Apart(len)
              && HasCode(Tree(code[..], len[..]), LengthCode(lc) + LITERALS + 1)
    requires Fits(w, |LengthBits(lc, Tree(code[..], len[..]))|)
    modifies w`pending, w`biBuf, w`biValid, w.pendingBuf
    ensures w.Valid() && w.Sent() == old(w.Sent()) + LengthBits(lc, Tree(code[..], len[..]))
    ensures code[..] == old(code[..]) && len[..] == old(len[..])
    ensures 8 * w.pending + w.biValid == old(8 * w.pending + w.biValid) + |LengthBits(lc, Tree(code[..], len[..]))|
  {
    hide ToBits, Pow2, BytesToBits, LengthCode, BaseLength, ExtraL;
    LengthFits(lc);
    var c := LengthCode(lc);
    SendCode(w, code, len, c + LITERALS + 1);
    SendExtra(w, if c == 28 then 0 else lc - BaseLength(c), ExtraL(c));
  }

  method SendDist(w: Writer, d: nat, code: array<nat>, len: array<nat>)
    requires w.Valid() && w.Apart(code) && w.Apart(len) && d < 0x8000 && HasCode(Tree(code[..], len[..]), DistCode(d))
    requires Fits(w, |DistBits(d, Tree(code[..], len[..]))|)
    modifies w`pending, w`biBuf, w`biValid, w.pendingBuf
    ensures w.Valid() && w.Sent() == old(w.Sent()) + DistBits(d, Tree(code[..], len[..]))
    ensures code[..] == old(code[..]) && len[..] == old(len[..])
    ensures 8 * w.pending + w.biValid == old(8 * w.pending + w.biValid) + |DistBits(d, Tree(code[..], len[..]))|
  {
    hide ToBits, Pow2, BytesToBits, DistCode, BaseDist, ExtraD;
    DistFits(d);
    var c := DistCode(d);
    SendCode(w, code, len, c);
    SendExtra(w, d - BaseDist(c), ExtraD(c));
  }

  /** Sends one symbol of the buffer. */
  method SendSymbol(w: Writer, dist: nat, lc: Byte, lcode: array<nat>, llen: array<nat>, dcode: array<nat>,
      dlen: array<nat>)
    requires w.Valid() && w.Apart(lcode) && w.Apart(llen) && w.Apart(dcode) && w.Apart(dlen)
    requires Codable(Tallied(dist, lc), Tree(lcode[..], llen[..]), Tree(dcode[..], dlen[..]))
    requires Fits(w, |SymbolBits(Tallied(dist, lc), Tree(lcode[..], llen[..]), Tree(dcode[..], dlen[..]))|)
    modifies w`pending, w`biBuf, w`biValid, w.pendingBuf
    ensures w.Valid() && lcode[..] == old(lcode[..]) && llen[..] == old(llen[..])
    ensures dcode[..] == old(dcode[..]) && dlen[..] == old(dlen[..])
    ensures w.Sent() == old(w.Sent()) + SymbolBits(Tallied(dist, lc), Tree(lcode[..], llen[..]),
              Tree(dcode[..], dlen[..]))
    ensures 8 * w.pending + w.biValid == old(8 * w.pending + w.biValid) +
            |SymbolBits(Tallied(dist, lc), Tree(lcode[..], llen[..]), Tree(dcode[..], dlen[..]))|
  {
    hide ToBits, Pow2, BytesToBits, LengthCode, DistCode, LengthBits, DistBits;
    ghost var lt, dt := Tree(lcode[..], llen[..]), Tree(dcode[..], dlen[..]);
    if dist == 0 {
      SendCode(w, lcode, llen, lc);
    } else {
      SendLength(w, lc, lcode, llen);
      assert dcode[..] == dt.code && dlen[..] == dt.len;
      SendDist(w, dist - 1, dcode, dlen);
    }
    assert lcode[..] == lt.code && llen[..] == lt.len && dcode[..] == dt.code && dlen[..] == dt.len;
  }

  lemma {:induction false} SymbolsInLength(buf: seq<Byte>)
    ensures |SymbolsIn(buf)| == |buf| / 3
  {
    if |buf| >= 3 {
      SymbolsInLength(buf[..|buf| - 3]);
    }
  }

  lemma {:induction false} SymbolsInPrefix(buf: seq<Byte>, n: nat)
    requires n <= |buf| && n % 3 == 0 && |buf| % 3 == 0
    ensures n / 3 <= |SymbolsIn(buf)| && SymbolsIn(buf[..n]) == SymbolsIn(buf)[..n / 3]
  {
    SymbolsInLength(buf);
    if n < |buf| {
      var front := buf[..|buf| - 3];
      SymbolsInPrefix(front, n);
      assert front[..n] == buf[..n];
    } else {
      assert buf[..n] == buf;
    }
  }

  /** One symbol more, and what that means for the bits. */
  lemma NextSymbol(buf: seq<Byte>, sx: nat, lt: Tree, dt: Tree)
    requires sx + 3 <= |buf| && sx % 3 == 0 && |buf| % 3 == 0 && AllCodable(SymbolsIn(buf), lt, dt)
    ensures var syms, s := SymbolsIn(buf[..sx]), SymbolAt(buf[sx], buf[sx + 1], buf[sx + 2]);
            && AllCodable(syms, lt, dt) && Codable(s, lt, dt) && AllCodable(SymbolsIn(buf[..sx + 3]), lt, dt)
            && SymbolsBits(SymbolsIn(buf[..sx + 3]), lt, dt) == SymbolsBits(syms, lt, dt) + SymbolBits(s, lt, dt)
            && |SymbolsBits(SymbolsIn(buf[..sx + 3]), lt, dt)| <= |SymbolsBits(SymbolsIn(buf), lt, dt)|
  {
    hide Codable, SymbolBits, SymbolsIn, SymbolsBits, SymbolAt;
    var all, k := SymbolsIn(buf), sx / 3;
    NextInBuffer(buf, sx);
    var s := SymbolAt(buf[sx], buf[sx + 1], buf[sx + 2]);
    SymbolsBitsAppend(all[..k], [s], lt, dt);
    SingleSymbol(s, lt, dt);
    SymbolsBitsAppend(all[..k + 1], all[k + 1..], lt, dt);
  }

  lemma NextInBuffer(buf: seq<Byte>, sx: nat)
    requires sx + 3 <= |buf| && sx % 3 == 0 && |buf| % 3 == 0
    ensures var all, k, s := SymbolsIn(buf), sx / 3, SymbolAt(buf[sx], buf[sx + 1], buf[sx + 2]);
            && k < |all| && s == all[k] && SymbolsIn(buf[..sx]) == all[..k] && SymbolsIn(buf[..sx + 3]) == all[..k + 1]
            && all[..k + 1] == all[..k] + [s] && all == all[..k + 1] + all[k + 1..]
  {
    hide SymbolsIn, SymbolAt;
    var all, k := SymbolsIn(buf), sx / 3;
    SymbolsInPrefix(buf, sx);
    SymbolsInPrefix(buf, sx + 3);
    assert (sx + 3) / 3 == k + 1;
    assert buf[..sx + 3] == buf[..sx] + [buf[sx], buf[sx + 1], buf[sx + 2]];
    SymbolsInAppend(buf[..sx], buf[sx], buf[sx + 1], buf[sx + 2]);
    assert SymbolAt(buf[sx], buf[sx + 1], buf[sx + 2]) == all[..k + 1][k] == all[k];
  }

  lemma SingleSymbol(s: Symbol, lt: Tree, dt: Tree)
    requires Codable(s, lt, dt)
    ensures AllCodable([s], lt, dt) && SymbolsBits([s], lt, dt) == SymbolBits(s, lt, dt)
  {
    assert [s][1..] == [];
  }

  /** Sends all symbols of the buffer and the end of the block. */
  method CompressBlock(w: Writer, symBuf: array<Byte>, symNext: nat,
                       lcode: array<nat>, llen: array<nat>, dcode: array<nat>, dlen: array<nat>)
    requires w.Valid() && w.Apart(lcode) && w.Apart(llen) && w.Apart(dcode) && w.Apart(dlen)
    requires symNext % 3 == 0 && symNext <= symBuf.Length && symBuf != w.pendingBuf
    requires AllCodable(SymbolsIn(symBuf[..symNext]), Tree(lcode[..], llen[..]), Tree(dcode[..], dlen[..]))
    requires HasCode(Tree(lcode[..], llen[..]), END_BLOCK)
    requires Fits(w, |SymbolsBits(SymbolsIn(symBuf[..symNext]), Tree(lcode[..], llen[..]), Tree(dcode[..], dlen[..]))|
              + llen[END_BLOCK])
    modifies w`pending, w`biBuf, w`biValid, w.pendingBuf
    ensures w.Valid()
    ensures w.Sent() == old(w.Sent() + SymbolsBits(SymbolsIn(symBuf[..symNext]), Tree(lcode[..], llen[..]),
              Tree(dcode[..], dlen[..]))
                            + CodeBits(Tree(lcode[..], llen[..]), END_BLOCK))
  {
    hide ToBits, Pow2, BytesToBits, SymbolsIn, SymbolsBits, SymbolBits, Codable, CodeBits;
    ghost var lt, dt, buf := Tree(lcode[..], llen[..]), Tree(dcode[..], dlen[..]), symBuf[..symNext];
    ghost var all, before := SymbolsBits(SymbolsIn(buf), lt, dt), 8 * w.pending + w.biValid;
    assert before + |all| + llen[END_BLOCK] <= 8 * w.pendingBuf.Length;
    var sx := 0;
    assert buf[..0] == [];
    NoSymbols(lt, dt);
    while sx < symNext
      invariant 0 <= sx <= symNext && sx % 3 == 0 && w.Valid() && symBuf[..symNext] == buf
      invariant Tree(lcode[..], llen[..]) == lt && Tree(dcode[..], dlen[..]) == dt
      invariant AllCodable(SymbolsIn(buf[..sx]), lt, dt)
      invariant w.Sent() == old(w.Sent()) + SymbolsBits(SymbolsIn(buf[..sx]), lt, dt)
      invariant 8 * w.pending + w.biValid == before + |SymbolsBits(SymbolsIn(buf[..sx]), lt, dt)|
    {
      NextSymbol(buf, sx, lt, dt);
      assert buf[sx] == symBuf[sx] && buf[sx + 1] == symBuf[sx + 1] && buf[sx + 2] == symBuf[sx + 2];
      var dist: nat := symBuf[sx] as nat + (symBuf[sx + 1] as nat) * 256;
      var lc := symBuf[sx + 2];
      assert Tallied(dist, lc) == SymbolAt(buf[sx], buf[sx + 1], buf[sx + 2]);
      SendSymbol(w, dist, lc, lcode, llen, dcode, dlen);
      sx := sx + 3;
    }
    assert buf[..sx] == buf;
    assert lcode[..] == lt.code && llen[..] == lt.len;
    SendCode(w, lcode, llen, END_BLOCK);
  }

  lemma NoSymbols(lt: Tree, dt: Tree)
    ensures SymbolsIn([]) == [] && SymbolsBits([], lt, dt) == []
  {
  }
}
