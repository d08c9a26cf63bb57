/**
  What the compressor sends for a block's symbols, the decoder puts out as the bytes that they stand for
  (compress_block in zlib's trees.c against the states LEN to LIT in inflate.c).
 */
module SymbolRoundTrip {
  import opened Arithmetic
  import opened Bits
  import opened BlockSymbols
  import opened DecodingTable
  import opened HuffmanCode
  import opened Inflation
  import opened Lz77
  import opened TreeBuild

  /** The first `n` symbols' codewords are the canonical ones of the lengths that the decoder has. */
  ghost predicate Agrees(t: Tree, lens: seq<nat>, n: nat) {
    forall k: nat :: k < n && HasCode(t, k) ==> Coded(lens, k) && lens[k] == t.len[k] && t.code[k] == SentCode(lens, k)
  }

  /** Both of the compressor's trees agree with the decoder's. */
  ghost predicate SameTrees(lt: Tree, dt: Tree, t: Trees) {
    t.Valid() && Agrees(lt, t.llens, L_CODES) && Agrees(dt, t.dlens, D_CODES)
  }

  lemma CodeBegins(t: Tree, lens: seq<nat>, n: nat, k: nat, q: seq<bool>)
    requires Agrees(t, lens, n) && k < n && HasCode(t, k)
    ensures Begins(lens, k, CodeBits(t, k) + q) && lens[k] == |CodeBits(t, k)|
    ensures (CodeBits(t, k) + q)[lens[k]..] == q
  {
    hide FromBits, ToBits, SentCode, Pow2;
    FromTo(t.code[k], t.len[k]);
    assert (CodeBits(t, k) + q)[..lens[k]] == CodeBits(t, k);
  }

  /** A codeword of the literal and length tree takes the decoder to the mode of its entry. */
  lemma LenCodeRun(c: Config, s: State, lt: Tree, dt: Tree, k: nat, q: seq<bool>)
    requires s.Valid() && s.mode.Len? && SameTrees(lt, dt, s.mode.t) && k < L_CODES && HasCode(lt, k)
    requires Leads(c, Config(s, CodeBits(lt, k) + q))
    ensures k < MaxSymbols(Lens)
    ensures Leads(c, Config(s.(mode := LenMode(s.mode.t, EntryOf(Lens, k, 0).op, EntryOf(Lens, k, 0).val)), q))
  {
    hide Leads, CodeBits, Begins, EntryOf, LenMode, Decode, HasCode, Agrees, State.Valid, CodeValid;
    LenFits(s.mode.t);
    CodeBegins(lt, s.mode.t.llens, L_CODES, k, q);
    DecodeIs(Lens, s.mode.t.llens, k, CodeBits(lt, k) + q);
    LeadsStep(c, Config(s, CodeBits(lt, k) + q));
  }

  lemma DistCodeRun(c: Config, s: State, lt: Tree, dt: Tree, k: nat, q: seq<bool>)
    requires s.Valid() && s.mode.Dist? && SameTrees(lt, dt, s.mode.t) && k < D_CODES && HasCode(dt, k)
    requires Leads(c, Config(s, CodeBits(dt, k) + q))
    ensures k < MaxSymbols(Dists)
    ensures Leads(c, Config(s.(mode := DistMode(s.mode.t, s.mode.length, EntryOf(Dists, k, 0).op,
              EntryOf(Dists, k, 0).val)), q))
  {
    hide Leads, CodeBits, Begins, EntryOf, DistMode, Decode, HasCode, Agrees, State.Valid, CodeValid;
    LenFits(s.mode.t);
    CodeBegins(dt, s.mode.t.dlens, D_CODES, k, q);
    DecodeIs(Dists, s.mode.t.dlens, k, CodeBits(dt, k) + q);
    LeadsStep(c, Config(s, CodeBits(dt, k) + q));
  }

  /** Extra bits come back as the number that was sent. */
  lemma ExtraRun(c: Config, s: State, v: nat, n: nat, q: seq<bool>)
    requires s.Valid() && v < Pow2(n) && Leads(c, Config(s, ToBits(v, n) + q))
    ensures s.mode.LenExt? && s.mode.extra == n ==> Leads(c, Config(s.(mode := Dist(s.mode.t, s.mode.length + v)), q))
    ensures s.mode.DistExt? && s.mode.extra == n ==>
              Leads(c, Config(s.(mode := Matching(s.mode.t, s.mode.length, s.mode.offset + v)), q))
  {
    hide Leads, ToBits, FromBits, State.Valid, Pow2;
    FromTo(v, n);
    var p := ToBits(v, n) + q;
    assert p[..n] == ToBits(v, n) && p[n..] == q;
    if (s.mode.LenExt? && s.mode.extra == n) || (s.mode.DistExt? && s.mode.extra == n) {
      LeadsStep(c, Config(s, p));
    }
  }

  /** The decoder's entry for a length's code is the compressor's base and extra bits. */
  lemma LengthEntries(code: nat)
    requires code <= 28
    ensures EntryOf(Lens, code + LITERALS + 1, 0).op == 16 + ExtraL(code) && ExtraL(code) <= 5
    ensures EntryOf(Lens, code + LITERALS + 1, 0).val == if code == 28 then 258 else BaseLength(code) + 3
  {
    hide EntryOf, ExtraL, BaseLength;
    LengthOp(code);
    LengthVal(code);
  }

  lemma LengthOp(code: nat)
    requires code <= 28
    ensures EntryOf(Lens, code + LITERALS + 1, 0).op == 16 + ExtraL(code) && ExtraL(code) <= 5
  {
  }

  lemma LengthVal(code: nat)
    requires code <= 28
    ensures EntryOf(Lens, code + LITERALS + 1, 0).val == if code == 28 then 258 else BaseLength(code) + 3
  {
  }

  lemma DistEntries(code: nat)
    requires code < D_CODES
    ensures EntryOf(Dists, code, 0).op == 16 + ExtraD(code) && ExtraD(code) <= 13
    ensures EntryOf(Dists, code, 0).val == BaseDist(code) + 1
  {
    hide EntryOf, ExtraD, BaseDist;
    DistOp(code);
    DistVal(code);
  }

  lemma DistOp(code: nat)
    requires code < D_CODES
    ensures EntryOf(Dists, code, 0).op == 16 + ExtraD(code) && ExtraD(code) <= 13
  {
  }

  lemma DistVal(code: nat)
    requires code < D_CODES
    ensures EntryOf(Dists, code, 0).val == BaseDist(code) + 1
  {
  }

  /** A match length takes the decoder to the mode where the distance is expected. */
  lemma LengthRun(c: Config, s: State, lt: Tree, dt: Tree, lc: nat, q: seq<bool>)
    requires s.Valid() && s.mode.Len? && SameTrees(lt, dt, s.mode.t) && lc <= 255
              && HasCode(lt, LengthCode(lc) + LITERALS + 1)
    requires Leads(c, Config(s, LengthBits(lc, lt) + q))
    ensures Leads(c, Config(s.(mode := Dist(s.mode.t, lc + MIN_MATCH)), q))
  {
    hide Leads, ToBits, CodeBits, EntryOf, HasCode, State.Valid, Pow2, BaseLength, ExtraL, LengthCode, SameTrees;
    var code := LengthCode(lc);
    LengthFits(lc);
    LengthEntries(code);
    var extra := ToBits(LengthExtra(lc), ExtraL(code)) + q;
    assert LengthBits(lc, lt) + q == CodeBits(lt, code + LITERALS + 1) + extra;
    LenCodeRun(c, s, lt, dt, code + LITERALS + 1, extra);
    var e := EntryOf(Lens, code + LITERALS + 1, 0);
    var d := s.(mode := LenMode(s.mode.t, e.op, e.val));
    ExtMode(s.mode.t, e.op, e.val, ExtraL(code));
    LeadsValid(c, Config(d, extra));
    ExtraRun(c, d, LengthExtra(lc), ExtraL(code), q);
  }

  lemma ExtMode(t: Trees, op: nat, val: nat, extra: nat)
    requires op == 16 + extra && extra <= 13
    ensures extra <= 5 ==> LenMode(t, op, val) == LenExt(t, val, extra)
    ensures forall length: nat :: DistMode(t, length, op, val) == DistExt(t, length, val, extra)
  {
  }

  /** A distance takes the decoder to copying. */
  lemma DistRun(c: Config, s: State, lt: Tree, dt: Tree, d: nat, q: seq<bool>)
    requires s.Valid() && s.mode.Dist? && SameTrees(lt, dt, s.mode.t) && d < 0x8000 && HasCode(dt, DistCode(d))
    requires Leads(c, Config(s, DistBits(d, dt) + q))
    ensures Leads(c, Config(s.(mode := Matching(s.mode.t, s.mode.length, d + 1)), q))
  {
    hide Leads, ToBits, CodeBits, EntryOf, HasCode, State.Valid, Pow2, BaseDist, ExtraD, DistCode, SameTrees;
    var code := DistCode(d);
    DistFits(d);
    DistEntries(code);
    var extra := ToBits(d - BaseDist(code), ExtraD(code)) + q;
    assert DistBits(d, dt) + q == CodeBits(dt, code) + extra;
    DistCodeRun(c, s, lt, dt, code, extra);
    var e := EntryOf(Dists, code, 0);
    var x := s.(mode := DistMode(s.mode.t, s.mode.length, e.op, e.val));
    ExtMode(s.mode.t, e.op, e.val, ExtraD(code));
    LeadsValid(c, Config(x, extra));
    ExtraRun(c, x, d - BaseDist(code), ExtraD(code), q);
  }

  lemma LiteralEntry(b: nat)
    requires b < 256
    ensures EntryOf(Lens, b, 0).op == 0 && EntryOf(Lens, b, 0).val == b
  {
  }

  /** The output behind a symbol. */
  function After(out: seq<Byte>, sym: Symbol): seq<Byte>
    requires ValidSymbol(sym) && (sym.Match? ==> sym.dist <= |out|)
  {
    match sym
    case Literal(b) => out + [b]
    case Match(dist, lc) => Copy(out, dist, lc + MIN_MATCH)
  }

  lemma LiteralRun(c: Config, s: State, lt: Tree, dt: Tree, b: nat, q: seq<bool>)
    requires s.Valid() && s.mode.Len? && SameTrees(lt, dt, s.mode.t) && b < 256 && HasCode(lt, b)
    requires Leads(c, Config(s, CodeBits(lt, b) + q))
    ensures Leads(c, Config(s.(out := s.out + [b]), q))
  {
    hide Leads, CodeBits, EntryOf, HasCode, State.Valid, SameTrees;
    LiteralEntry(b);
    LenCodeRun(c, s, lt, dt, b, q);
    var d := Config(s.(mode := Lit(s.mode.t, b)), q);
    LeadsValid(c, d);
    LitIs(d.s, q);
    LeadsStep(c, d);
    assert q[0..] == q;
  }

  lemma LitIs(s: State, p: seq<bool>)
    requires s.Valid() && s.mode.Lit?
    ensures s.mode.c < 256 && Step(s, p) == LitStep(s)
  {
  }

  /** One symbol. */
  lemma SymbolRun(c: Config, s: State, lt: Tree, dt: Tree, sym: Symbol, q: seq<bool>)
    requires s.Valid() && s.mode.Len? && SameTrees(lt, dt, s.mode.t) && Codable(sym, lt, dt)
    requires sym.Match? ==> sym.dist <= |s.out|
    requires Leads(c, Config(s, SymbolBits(sym, lt, dt) + q))
    ensures Leads(c, Config(s.(out := After(s.out, sym)), q))
  {
    hide Leads, HasCode, State.Valid, SameTrees, LengthBits, DistBits, CodeBits, LengthCode, DistCode;
    match sym
    case Literal(b) => LiteralRun(c, s, lt, dt, b, q);
    case Match(dist, lc) =>
      assert SymbolBits(sym, lt, dt) + q == LengthBits(lc, lt) + (DistBits(dist - 1, dt) + q);
      LengthRun(c, s, lt, dt, lc, DistBits(dist - 1, dt) + q);
      var d := s.(mode := Dist(s.mode.t, lc + MIN_MATCH));
      LeadsValid(c, Config(d, DistBits(dist - 1, dt) + q));
      DistRun(c, d, lt, dt, dist - 1, q);
      var m := s.(mode := Matching(s.mode.t, lc + MIN_MATCH, dist));
      LeadsValid(c, Config(m, q));
      LeadsCopy(c, Config(m, q), lc + MIN_MATCH);
  }

  /** The output that the symbols so far stand for, behind one more. */
  lemma ExpandNext(done: seq<Symbol>, sym: Symbol)
    requires Expandable(done + [sym])
    ensures Expandable(done) && ValidSymbol(sym) && (sym.Match? ==> sym.dist <= |Expand(done)|)
    ensures Expand(done + [sym]) == After(Expand(done), sym)
  {
    var all := done + [sym];
    assert all[..|all| - 1] == done;
  }

  /** All symbols of a block: the decoder puts out what they stand for behind the symbols before. */
  lemma {:induction false} SymbolsRun(c: Config, s: State, lt: Tree, dt: Tree, done: seq<Symbol>, syms: seq<Symbol>,
      q: seq<bool>)
    requires s.Valid() && s.mode.Len? && SameTrees(lt, dt, s.mode.t) && AllCodable(syms, lt, dt)
    requires Expandable(done + syms) && Expandable(done) && s.out == Expand(done)
    requires Leads(c, Config(s, SymbolsBits(syms, lt, dt) + q))
    ensures Leads(c, Config(s.(out := Expand(done + syms)), q))
    decreases |syms|
  {
    hide Leads, State.Valid, SameTrees, Codable, SymbolBits, Expand, Expandable;
    if syms == [] {
      assert done + syms == done && [] + q == q;
    } else {
      var rest := SymbolsBits(syms[1..], lt, dt) + q;
      assert SymbolsBits(syms, lt, dt) + q == SymbolBits(syms[0], lt, dt) + rest;
      assert done + syms == done + [syms[0]] + syms[1..];
      FrontExpands(done + [syms[0]], syms[1..]);
      ExpandNext(done, syms[0]);
      SymbolRun(c, s, lt, dt, syms[0], rest);
      var d := s.(out := After(s.out, syms[0]));
      LeadsValid(c, Config(d, rest));
      SymbolsRun(c, d, lt, dt, done + [syms[0]], syms[1..], q);
    }
  }

  lemma EndEntry(t: Trees)
    ensures LenMode(t, EntryOf(Lens, END_BLOCK, 0).op, EntryOf(Lens, END_BLOCK, 0).val) == Type
  {
  }

  /** The symbols of a block and its end, with the trees that the decoder has. */
  lemma BodyRun(s: State, lt: Tree, dt: Tree, done: seq<Symbol>, syms: seq<Symbol>, q: seq<bool>)
    requires s.Valid() && s.mode.Len? && SameTrees(lt, dt, s.mode.t) && AllCodable(syms, lt, dt)
              && HasCode(lt, END_BLOCK)
    requires Expandable(done + syms) && Expandable(done) && s.out == Expand(done)
    ensures Leads(Config(s, SymbolsBits(syms, lt, dt) + CodeBits(lt, END_BLOCK) + q),
                  Config(State(Type, s.last, Expand(done + syms)), q))
  {
    hide Leads, State.Valid, SameTrees, AllCodable, SymbolsBits, Expand, Expandable, EntryOf, LenMode, CodeBits,
         HasCode;
    var p := SymbolsBits(syms, lt, dt) + CodeBits(lt, END_BLOCK) + q;
    var c := Config(s, p);
    assert p == SymbolsBits(syms, lt, dt) + (CodeBits(lt, END_BLOCK) + q);
    LeadsStart(c);
    SymbolsRun(c, s, lt, dt, done, syms, CodeBits(lt, END_BLOCK) + q);
    var d := s.(out := Expand(done + syms));
    LeadsValid(c, Config(d, CodeBits(lt, END_BLOCK) + q));
    LenCodeRun(c, d, lt, dt, END_BLOCK, q);
    EndEntry(s.mode.t);
  }
}
