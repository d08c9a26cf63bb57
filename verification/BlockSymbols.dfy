/** The symbols of a compressed block, their codes and extra bits, and what they cost (zlib's trees.c). */
module BlockSymbols {
  import opened Arithmetic
  import opened Bits
  import opened TreeBuild

  const LITERALS: nat := 256
  const END_BLOCK: nat := 256
  const D_CODES: nat := 30
  const BL_CODES: nat := 19

  const EXTRA_LBITS: seq<nat> := [
    0, 0, 0, 0, 0, 0, 0, 0, 1, 1, 1, 1, 2, 2, 2, 2, 3, 3, 3, 3, 4, 4, 4, 4, 5, 5, 5, 5, 0]
  const EXTRA_DBITS: seq<nat> := [
    0, 0, 0, 0, 1, 1, 2, 2, 3, 3, 4, 4, 5, 5, 6, 6, 7, 7, 8, 8, 9, 9, 10, 10, 11, 11, 12, 12, 13, 13]
  const EXTRA_BLBITS: seq<nat> := [0, 0, 0, 0, 0, 0, 0, 0, 0, 0, 0, 0, 0, 0, 0, 0, 2, 3, 7]
  const BASE_LENGTH: seq<nat> := [
    0, 1, 2, 3, 4, 5, 6, 7, 8, 10, 12, 14, 16, 20, 24, 28, 32, 40, 48, 56,
    64, 80, 96, 112, 128, 160, 192, 224, 0]
  const BASE_DIST: seq<nat> := [
    0, 1, 2, 3, 4, 6, 8, 12, 16, 24,
    32, 48, 64, 96, 128, 192, 256, 384, 512, 768,
    1024, 1536, 2048, 3072, 4096, 6144, 8192, 12288, 16384, 24576]

  function ExtraL(code: nat): nat
    requires code <= 28
  {
    EXTRA_LBITS[code]
  }

  function ExtraD(code: nat): nat
    requires code < D_CODES
  {
    EXTRA_DBITS[code]
  }

  function BaseLength(code: nat): nat
    requires code <= 28
  {
    BASE_LENGTH[code]
  }

  function BaseDist(code: nat): nat
    requires code < D_CODES
  {
    BASE_DIST[code]
  }

  /** The last code up to `c` whose base is not above `lc`. */
  function LengthCodeUpTo(lc: nat, c: nat): (code: nat)
    requires c <= 27
    ensures code <= c && (code > 0 ==> BaseLength(code) <= lc) && (code < c ==> lc < BaseLength(code + 1))
  {
    hide BaseLength;
    if c == 0 || BaseLength(c) <= lc then c else LengthCodeUpTo(lc, c - 1)
  }

  function DistCodeUpTo(d: nat, c: nat): (code: nat)
    requires c < D_CODES
    ensures code <= c && (code > 0 ==> BaseDist(code) <= d) && (code < c ==> d < BaseDist(code + 1))
  {
    if c == 0 || BaseDist(c) <= d then c else DistCodeUpTo(d, c - 1)
  }

  /** The code of the match length `lc + 3`; the longest has a code of its own. */
  function LengthCode(lc: nat): (code: nat)
    ensures code <= 28
  {
    if lc == 255 then 28 else LengthCodeUpTo(lc, 27)
  }

  /** The code of the match distance `d + 1`. */
  function DistCode(d: nat): (code: nat)
    ensures code < D_CODES
  {
    DistCodeUpTo(d, 29)
  }

  /** The extra bits of a length, for the code 285 none. */
  function LengthExtra(lc: nat): int {
    if LengthCode(lc) == 28 then 0 else lc - BaseLength(LengthCode(lc))
  }

  lemma LengthStep(c: nat)
    requires c < 27
    ensures BaseLength(c + 1) == BaseLength(c) + Pow2(ExtraL(c)) && ExtraL(c) <= 5
  {
    hide Pow2;
    SmallPowers();
  }

  lemma LengthEnds()
    ensures BaseLength(0) == 0 && BaseLength(27) == 224 && ExtraL(27) == 5 && ExtraL(28) == 0 && Pow2(5) == 32
              && Pow2(0) == 1
  {
  }

  lemma DistStep(c: nat)
    requires c < 29
    ensures BaseDist(c + 1) == BaseDist(c) + Pow2(ExtraD(c)) && ExtraD(c) <= 13
  {
    hide Pow2;
    SmallPowers();
  }

  lemma DistEnds()
    ensures BaseDist(0) == 0 && BaseDist(29) == 24576 && ExtraD(29) == 13 && Pow2(13) == 8192
  {
    SmallPowers();
  }

  lemma SmallPowers()
    ensures Pow2(0) == 1 && Pow2(1) == 2 && Pow2(2) == 4 && Pow2(3) == 8 && Pow2(4) == 16 && Pow2(5) == 32
              && Pow2(6) == 64
    ensures Pow2(7) == 128 && Pow2(8) == 256 && Pow2(9) == 512 && Pow2(10) == 1024 && Pow2(11) == 2048
              && Pow2(12) == 4096
    ensures Pow2(13) == 8192
  {
  }

  /** A length is its code's base and extra bits that fit. */
  lemma LengthFits(lc: nat)
    requires lc <= 255
    ensures ExtraL(LengthCode(lc)) <= 5 && 0 <= LengthExtra(lc) < Pow2(ExtraL(LengthCode(lc)))
    ensures LengthCode(lc) == 28 <==> lc == 255
  {
    hide Pow2, BaseLength, ExtraL;
    LengthEnds();
    if lc < 255 {
      var code := LengthCodeUpTo(lc, 27);
      if code < 27 {
        LengthStep(code);
      }
    }
  }

  /** A distance is its code's base and extra bits that fit. */
  lemma DistFits(d: nat)
    requires d < 0x8000
    ensures BaseDist(DistCode(d)) <= d < BaseDist(DistCode(d)) + Pow2(ExtraD(DistCode(d))) && ExtraD(DistCode(d)) <= 13
  {
    hide Pow2, BaseDist, ExtraD;
    DistEnds();
    var code := DistCodeUpTo(d, 29);
    if code < 29 {
      DistStep(code);
    }
  }

  // ---------- the descriptions of the three trees ----------

  function FixedLength(n: nat): nat {
    if n <= 143 then 8 else if n <= 255 then 9 else if n <= 279 then 7 else 8
  }

  /** The code lengths of the fixed trees (section 3.2.6 of RFC 1951). */
  function FixedLengths(): (s: seq<nat>)
    ensures |s| == L_CODES + 2
  {
    seq(L_CODES + 2, n requires 0 <= n < L_CODES + 2 => FixedLength(n))
  }

  function FixedDistLengths(): (s: seq<nat>)
    ensures |s| == D_CODES
  {
    seq(D_CODES, _ => 5)
  }

  function LDesc(): StaticDesc {
    StaticDesc(true, FixedLengths(), EXTRA_LBITS, LITERALS + 1, L_CODES, 15)
  }

  function DDesc(): StaticDesc {
    StaticDesc(true, FixedDistLengths(), EXTRA_DBITS, 0, D_CODES, 15)
  }

  function BlDesc(): StaticDesc {
    StaticDesc(false, [], EXTRA_BLBITS, 0, BL_CODES, 7)
  }

  lemma DescsValid()
    ensures LDesc().Valid() && DDesc().Valid() && BlDesc().Valid()
    ensures LDesc().elems == L_CODES && DDesc().elems == D_CODES && BlDesc().elems == BL_CODES
    ensures |LDesc().lens| >= L_CODES && |DDesc().lens| >= D_CODES
    ensures LDesc().limit == 15 == DDesc().limit && BlDesc().limit == 7
  {
    SmallPowers();
    assert Pow2(15) == 4 * Pow2(13);
  }

  lemma ExtraOfDescs()
    ensures forall n: nat :: n <= END_BLOCK ==> LDesc().Extra(n) == 0
    ensures forall c: nat :: c <= 28 ==> LDesc().Extra(c + LITERALS + 1) == ExtraL(c)
    ensures forall c: nat :: c < D_CODES ==> DDesc().Extra(c) == ExtraD(c)
  {
  }

  // ---------- symbols ----------

  /** A literal byte, or a match with its distance and its length less 3. */
  datatype Symbol = Literal(c: nat) | Match(dist: nat, lc: nat)

  predicate ValidSymbol(s: Symbol) {
    match s
    case Literal(c) => c < LITERALS
    case Match(dist, lc) => 1 <= dist <= 0x8000 && lc <= 255
  }

  /** The symbol's number in the alphabet of literals and lengths. */
  function LSym(s: Symbol): (n: nat)
    requires ValidSymbol(s)
    ensures n < L_CODES && n != END_BLOCK
  {
    match s
    case Literal(c) => c
    case Match(_, lc) => LengthCode(lc) + LITERALS + 1
  }

  /** The codewords of a tree, as they are sent, and their lengths. */
  datatype Tree = Tree(code: seq<nat>, len: seq<nat>)

  predicate HasCode(t: Tree, n: nat) {
    n < |t.code| && n < |t.len| && 0 < t.len[n] <= 15 && t.code[n] < Pow2(t.len[n])
  }

  function CodeBits(t: Tree, n: nat): seq<bool>
    requires HasCode(t, n)
  {
    ToBits(t.code[n], t.len[n])
  }

  /** Both trees have the codewords that the symbol needs. */
  predicate Codable(s: Symbol, lt: Tree, dt: Tree) {
    ValidSymbol(s) && HasCode(lt, LSym(s)) && (s.Match? ==> HasCode(dt, DistCode(s.dist - 1)))
  }

  /** The bits of a match length: its codeword and its extra bits. */
  function LengthBits(lc: nat, lt: Tree): seq<bool>
    requires lc <= 255 && HasCode(lt, LengthCode(lc) + LITERALS + 1)
  {
    LengthFits(lc);
    CodeBits(lt, LengthCode(lc) + LITERALS + 1) + ToBits(LengthExtra(lc), ExtraL(LengthCode(lc)))
  }

  /** The bits of the match distance `d + 1`. */
  function DistBits(d: nat, dt: Tree): seq<bool>
    requires d < 0x8000 && HasCode(dt, DistCode(d))
  {
    DistFits(d);
    CodeBits(dt, DistCode(d)) + ToBits(d - BaseDist(DistCode(d)), ExtraD(DistCode(d)))
  }

  /** The bits of a symbol (section 3.2.5 of RFC 1951). */
  function SymbolBits(s: Symbol, lt: Tree, dt: Tree): seq<bool>
    requires Codable(s, lt, dt)
  {
    match s
    case Literal(c) => CodeBits(lt, c)
    case Match(dist, lc) => LengthBits(lc, lt) + DistBits(dist - 1, dt)
  }

  predicate AllCodable(syms: seq<Symbol>, lt: Tree, dt: Tree) {
    forall i :: 0 <= i < |syms| ==> Codable(syms[i], lt, dt)
  }

  function SymbolsBits(syms: seq<Symbol>, lt: Tree, dt: Tree): seq<bool>
    requires AllCodable(syms, lt, dt)
  {
    if syms == [] then [] else SymbolBits(syms[0], lt, dt) + SymbolsBits(syms[1..], lt, dt)
  }

  // ---------- frequencies and cost ----------

  predicate AllValid(syms: seq<Symbol>) {
    forall i :: 0 <= i < |syms| ==> ValidSymbol(syms[i])
  }

  /** How often the literal or length `n` occurs. */
  function LFreq(syms: seq<Symbol>, n: nat): nat
    requires AllValid(syms)
  {
    if syms == [] then 0 else LFreq(syms[..|syms| - 1], n) + if LSym(syms[|syms| - 1]) == n then 1 else 0
  }

  function DFreq(syms: seq<Symbol>, n: nat): nat
    requires AllValid(syms)
  {
    if syms == [] then 0
    else
      var s := syms[|syms| - 1];
      DFreq(syms[..|syms| - 1], n) + if s.Match? && DistCode(s.dist - 1) == n then 1 else 0
  }

  /** The frequency counters for the symbols of a block and its end. */
  ghost predicate Counted(syms: seq<Symbol>, lfreq: seq<nat>, dfreq: seq<nat>) {
    && AllValid(syms) && |lfreq| >= L_CODES && |dfreq| >= D_CODES
    && (forall n :: 0 <= n < L_CODES ==> lfreq[n] == LFreq(syms, n) + if n == END_BLOCK then 1 else 0)
    && (forall n :: 0 <= n < D_CODES ==> dfreq[n] == DFreq(syms, n))
  }

  lemma {:induction false} CostOneLess(stat: StaticDesc, freq: seq<nat>, freq': seq<nat>, lens: seq<nat>, x: nat,
      n: nat)
    requires n <= |freq| && n <= |freq'| && n <= |lens| && x < |freq'| && x < |lens|
    requires forall i :: 0 <= i < n ==> freq[i] == freq'[i] + if i == x then 1 else 0
    ensures Cost(stat, freq, lens, n) == Cost(stat, freq', lens, n) + if x < n then lens[x] + stat.Extra(x) else 0
  {
    if n > 0 {
      CostOneLess(stat, freq, freq', lens, x, n - 1);
      if x == n - 1 {
        MulDistribute(freq'[x], 1, lens[x] + stat.Extra(x));
      }
    }
  }

  /** What one symbol takes in bits. */
  function SymbolCost(s: Symbol, llen: seq<nat>, dlen: seq<nat>): nat
    requires ValidSymbol(s) && |llen| >= L_CODES && |dlen| >= D_CODES
  {
    match s
    case Literal(c) => llen[c]
    case Match(dist, lc) =>
      llen[LSym(s)] + ExtraL(LengthCode(lc)) + dlen[DistCode(dist - 1)] + ExtraD(DistCode(dist - 1))
  }

  function SymbolsCost(syms: seq<Symbol>, llen: seq<nat>, dlen: seq<nat>): nat
    requires AllValid(syms) && |llen| >= L_CODES && |dlen| >= D_CODES
  {
    if syms == [] then 0
    else SymbolsCost(syms[..|syms| - 1], llen, dlen) + SymbolCost(syms[|syms| - 1], llen, dlen)
  }

  function LFreqs(syms: seq<Symbol>): (f: seq<nat>)
    requires AllValid(syms)
    ensures |f| == L_CODES
  {
    seq(L_CODES, n requires 0 <= n < L_CODES => LFreq(syms, n))
  }

  function DFreqs(syms: seq<Symbol>): (f: seq<nat>)
    requires AllValid(syms)
    ensures |f| == D_CODES
  {
    seq(D_CODES, n requires 0 <= n < D_CODES => DFreq(syms, n))
  }

  /** The counted cost is the cost of the symbols one by one. */
  lemma {:induction false} CostOfSymbols(syms: seq<Symbol>, llen: seq<nat>, dlen: seq<nat>)
    requires AllValid(syms) && |llen| >= L_CODES && |dlen| >= D_CODES
    ensures Cost(LDesc(), LFreqs(syms), llen, L_CODES) + Cost(DDesc(), DFreqs(syms), dlen, D_CODES) ==
            SymbolsCost(syms, llen, dlen)
  {
    hide Cost, LengthCode, DistCode, LDesc, DDesc, ExtraL, ExtraD;
    if syms == [] {
      NoCost(LDesc(), LFreqs(syms), llen, L_CODES);
      NoCost(DDesc(), DFreqs(syms), dlen, D_CODES);
    } else {
      var front, s := syms[..|syms| - 1], syms[|syms| - 1];
      CostOfSymbols(front, llen, dlen);
      ExtraOfDescs();
      CostOneLess(LDesc(), LFreqs(syms), LFreqs(front), llen, LSym(s), L_CODES);
      if s.Match? {
        CostOneLess(DDesc(), DFreqs(syms), DFreqs(front), dlen, DistCode(s.dist - 1), D_CODES);
      } else {
        assert DFreqs(syms) == DFreqs(front);
      }
    }
  }

  lemma {:induction false} NoCost(stat: StaticDesc, freq: seq<nat>, lens: seq<nat>, n: nat)
    requires n <= |freq| && n <= |lens| && forall i :: 0 <= i < n ==> freq[i] == 0
    ensures Cost(stat, freq, lens, n) == 0
  {
    if n > 0 {
      NoCost(stat, freq, lens, n - 1);
    }
  }

  lemma SymbolBitsLength(s: Symbol, lt: Tree, dt: Tree)
    requires Codable(s, lt, dt) && |lt.len| >= L_CODES && |dt.len| >= D_CODES
    ensures |SymbolBits(s, lt, dt)| == SymbolCost(s, lt.len, dt.len)
  {
  }

  lemma {:induction false} SymbolsBitsAppend(a: seq<Symbol>, b: seq<Symbol>, lt: Tree, dt: Tree)
    requires AllCodable(a, lt, dt) && AllCodable(b, lt, dt)
    ensures AllCodable(a + b, lt, dt) && SymbolsBits(a + b, lt, dt) == SymbolsBits(a, lt, dt) + SymbolsBits(b, lt, dt)
  {
    hide Codable, SymbolBits;
    if a == [] {
      assert a + b == b;
    } else {
      assert (a + b)[1..] == a[1..] + b;
      SymbolsBitsAppend(a[1..], b, lt, dt);
      assert SymbolBits(a[0], lt, dt) + (SymbolsBits(a[1..], lt, dt) + SymbolsBits(b, lt, dt)) ==
             SymbolBits(a[0], lt, dt) + SymbolsBits(a[1..], lt, dt) + SymbolsBits(b, lt, dt);
    }
  }

  /** How many bits the symbols take. */
  lemma {:induction false} SymbolsBitsLength(syms: seq<Symbol>, lt: Tree, dt: Tree)
    requires AllCodable(syms, lt, dt) && AllValid(syms) && |lt.len| >= L_CODES && |dt.len| >= D_CODES
    ensures |SymbolsBits(syms, lt, dt)| == SymbolsCost(syms, lt.len, dt.len)
  {
    hide SymbolBits, SymbolCost;
    if syms != [] {
      var front, last := syms[..|syms| - 1], syms[|syms| - 1..];
      SymbolsBitsLength(front, lt, dt);
      SymbolsBitsAppend(front, last, lt, dt);
      assert front + last == syms && last[1..] == [];
      assert SymbolsBits(last, lt, dt) == SymbolBits(last[0], lt, dt) + SymbolsBits(last[1..], lt, dt);
      SymbolBitsLength(last[0], lt, dt);
    }
  }

  /** The bits of a block's symbols and its end are what the counters predict. */
  lemma BlockLength(syms: seq<Symbol>, lfreq: seq<nat>, dfreq: seq<nat>, lt: Tree, dt: Tree)
    requires Counted(syms, lfreq, dfreq) && AllCodable(syms, lt, dt) && HasCode(lt, END_BLOCK)
    requires |lt.len| >= L_CODES && |dt.len| >= D_CODES
    ensures |SymbolsBits(syms, lt, dt) + CodeBits(lt, END_BLOCK)| ==
            Cost(LDesc(), lfreq, lt.len, L_CODES) + Cost(DDesc(), dfreq, dt.len, D_CODES)
  {
    hide Cost, LDesc, DDesc;
    SymbolsBitsLength(syms, lt, dt);
    CostOfSymbols(syms, lt.len, dt.len);
    ExtraOfDescs();
    CostOneLess(LDesc(), lfreq, LFreqs(syms), lt.len, END_BLOCK, L_CODES);
    SameCost(DDesc(), dfreq, DFreqs(syms), dt.len, D_CODES);
  }

  lemma {:induction false} SameCost(stat: StaticDesc, freq: seq<nat>, freq': seq<nat>, lens: seq<nat>, n: nat)
    requires n <= |freq| && n <= |freq'| && n <= |lens| && forall i :: 0 <= i < n ==> freq[i] == freq'[i]
    ensures Cost(stat, freq, lens, n) == Cost(stat, freq', lens, n)
  {
    if n > 0 {
      SameCost(stat, freq, freq', lens, n - 1);
    }
  }
}
