/**
  What a deflate stream means, one small step at a time (section 3.2 of RFC 1951, with the error
  conditions of zlib's inflate.c).  A step takes some of the bits that are there, or finds too few.
 */
module Inflation {
  import opened Arithmetic
  import opened Bits
  import opened DecodingTable
  import opened HuffmanCode
  import opened Lz77
  import BlockSymbols
  import RunLengths

  const MAX_DISTANCE: nat := 0x8000
  const MAX_LENGTH: nat := 258

  /** The code lengths for literals and match lengths, and for distances. */
  datatype Trees = Trees(llens: seq<nat>, dlens: seq<nat>) {
    ghost predicate Valid() {
      CodeValid(Lens, llens) && CodeValid(Dists, dlens)
    }
  }

  ghost predicate CodeValid(t: CodeType, lens: seq<nat>) {
    ValidLengths(lens) && |lens| <= MaxSymbols(t) && Accepted(t, lens)
  }

  datatype Mode =
    | Type
    | Stored
    | Copying(left: nat)
    | Table
    | LenLens(nlen: nat, ndist: nat, ncode: nat, got: seq<nat>)
    | CodeLens(nlen: nat, ndist: nat, clens: seq<nat>, got: seq<nat>)
    | Len(t: Trees)
    | LenExt(t: Trees, length: nat, extra: nat)
    | Dist(t: Trees, length: nat)
    | DistExt(t: Trees, length: nat, offset: nat, extra: nat)
    | Matching(t: Trees, length: nat, offset: nat)
    | Lit(t: Trees, c: nat)
    | Done
    | Bad

  /** What the decoder knows between two steps, and all output so far. */
  datatype State = State(mode: Mode, last: bool, out: seq<Byte>) {
    ghost predicate Valid() {
      match mode
      case LenLens(nlen, ndist, ncode, got) =>
        257 <= nlen <= 286 && 1 <= ndist <= 30 && 4 <= ncode <= 19 && |got| <= ncode && AllLess(got, 8)
      case CodeLens(nlen, ndist, clens, got) =>
        && 257 <= nlen <= 286 && 1 <= ndist <= 30 && |got| <= nlen + ndist && AllLess(got, 16)
        && CodeValid(Codes, clens) && |clens| == 19 && AllLess(clens, 8)
      case Copying(left) => left < 0x1_0000
      case Len(t) => t.Valid()
      case LenExt(t, length, extra) => t.Valid() && 3 <= length && extra <= 5 && length + Pow2(extra) <= MAX_LENGTH + 1
      case Dist(t, length) => t.Valid() && 3 <= length <= MAX_LENGTH
      case DistExt(t, length, offset, extra) =>
        && t.Valid() && 3 <= length <= MAX_LENGTH && 1 <= offset && extra <= 13
        && offset + Pow2(extra) <= MAX_DISTANCE + 1
      case Matching(t, length, offset) => t.Valid() && 1 <= length <= MAX_LENGTH && 1 <= offset <= MAX_DISTANCE
      case Lit(t, c) => t.Valid() && c < 256
      case _ => true
    }
  }

  predicate AllLess(s: seq<nat>, n: nat) {
    forall i :: 0 <= i < |s| ==> s[i] < n
  }

  /** Either there are too few bits (or the stream has ended), or some are used. */
  datatype Result = Stuck | Next(state: State, used: nat)

  // ---------- codes ----------

  datatype Decoded = TooShort | Decoded(op: nat, val: nat, length: nat)

  /** The bits begin with the code of symbol `s`. */
  predicate Begins(lens: seq<nat>, s: nat, p: seq<bool>) {
    Coded(lens, s) && lens[s] <= |p| && FromBits(p[..lens[s]]) == SentCode(lens, s)
  }

  /** The first symbol of the bits; in a code with unused codewords it may be the invalid one. */
  ghost function Decode(t: CodeType, lens: seq<nat>, p: seq<bool>): Decoded
    requires |lens| <= MaxSymbols(t)
  {
    if exists s: nat :: Begins(lens, s, p) then
      var s: nat :| Begins(lens, s, p);
      Decoded(EntryOf(t, s, 0).op, EntryOf(t, s, 0).val, lens[s])
    else if |p| >= 1 && Kraft(lens) < Pow2(MAXBITS) then Decoded(INVALID.op, INVALID.val, INVALID.bits)
    else TooShort
  }

  /** The fixed trees (section 3.2.6 of RFC 1951). */
  function FixedTrees(): Trees {
    Trees(BlockSymbols.FixedLengths(), seq(32, _ => 5))
  }

  /** The lengths of the code length codes, from the order in which they are sent. */
  function Scatter(got: seq<nat>): (s: seq<nat>)
    requires |got| <= 19
    ensures |s| == 19
  {
    if got == [] then seq(19, _ => 0)
    else Scatter(got[..|got| - 1])[RunLengths.BL_ORDER[|got| - 1] := got[|got| - 1]]
  }

  // ---------- steps ----------

  /** The block header's second and third bit. */
  function BlockMode(kind: nat): Mode {
    if kind == 0 then Stored else if kind == 1 then Len(FixedTrees()) else if kind == 2 then Table else Bad
  }

  function TypeStep(s: State, p: seq<bool>): Result {
    if s.last then Next(s.(mode := Done), |p| % 8)
    else if |p| < 3 then Stuck
    else Next(State(BlockMode(FromBits(p[1..3])), p[0], s.out), 3)
  }

  /** A stored block's length comes twice, the second time complemented; it begins at a byte boundary. */
  function StoredStep(s: State, p: seq<bool>): Result {
    if |p| % 8 != 0 then Next(s, |p| % 8)
    else if |p| < 32 then Stuck
    else
      var len, complement := FromBits(p[..16]), FromBits(p[16..32]);
      if len + complement == 0xffff then Next(s.(mode := Copying(len)), 32) else Next(s.(mode := Bad), 0)
  }

  function CopyStep(s: State, p: seq<bool>): Result
    requires s.mode.Copying?
  {
    if s.mode.left == 0 then Next(s.(mode := Type), 0)
    else if |p| < 8 then Stuck
    else
      assert FromBits(p[..8]) < 256 by { BlockSymbols.SmallPowers(); }
      Next(State(Copying(s.mode.left - 1), s.last, s.out + [FromBits(p[..8])]), 8)
  }

  function TableStep(s: State, p: seq<bool>): Result {
    if |p| < 14 then Stuck
    else
      var nlen, ndist, ncode := FromBits(p[..5]) + 257, FromBits(p[5..10]) + 1, FromBits(p[10..14]) + 4;
      Next(s.(mode := if nlen > 286 || ndist > 30 then Bad else LenLens(nlen, ndist, ncode, [])), 14)
  }

  function LenLensStep(s: State, p: seq<bool>): Result
    requires s.mode.LenLens? && |s.mode.got| <= s.mode.ncode <= 19
  {
    var m := s.mode;
    if |m.got| < m.ncode then
      if |p| < 3 then Stuck else
        Next(s.(mode := LenLens(m.nlen, m.ndist, m.ncode, m.got + [FromBits(p[..3])])), 3)
    else if Accepted(Codes, Scatter(m.got)) then Next(s.(mode := CodeLens(m.nlen, m.ndist, Scatter(m.got), [])), 0)
    else Next(s.(mode := Bad), 0)
  }

  /** Both trees must be accepted, and the end of the block must have a code. */
  function TreesMode(llens: seq<nat>, dlens: seq<nat>): Mode
    requires |llens| >= 257
  {
    if llens[256] != 0 && Accepted(Lens, llens) && Accepted(Dists, dlens) then Len(Trees(llens, dlens)) else Bad
  }

  ghost function CodeLensStep(s: State, p: seq<bool>): Result
    requires s.mode.CodeLens? && |s.mode.clens| <= 19 && s.mode.nlen >= 257
              && |s.mode.got| <= s.mode.nlen + s.mode.ndist
  {
    var m := s.mode;
    var total := m.nlen + m.ndist;
    if |m.got| == total then Next(s.(mode := TreesMode(m.got[..m.nlen], m.got[m.nlen..])), 0)
    else
      var d := Decode(Codes, m.clens, p);
      if d.TooShort? then Stuck
      else
        var bits := ExtraBits(d.val);
        if |p| < d.length + bits then Stuck
        else if d.val == 16 && m.got == [] then Next(s.(mode := Bad), d.length)
        else
          var item := RunLengths.Item(d.val, FromBits(p[d.length..d.length + bits]), bits);
          match RunLengths.ExpandOne(item, m.got, total)
          case BadRepeat => Next(s.(mode := Bad), d.length + bits)
          case Lengths(got) => Next(s.(mode := CodeLens(m.nlen, m.ndist, m.clens, got)), d.length + bits)
  }

  /** The extra bits of a symbol of the code length code. */
  function ExtraBits(val: nat): nat {
    if val < 16 then 0 else if val == 16 then 2 else if val == 17 then 3 else 7
  }

  /** What a symbol of the literal and length code leads to. */
  function LenMode(t: Trees, op: nat, val: nat): Mode {
    if op == 0 then Lit(t, val)
    else if (op / 32) % 2 == 1 then Type
    else if (op / 64) % 2 == 1 then Bad
    else LenExt(t, val, op % 16)
  }

  ghost function LenStep(s: State, p: seq<bool>): Result
    requires s.mode.Len? && |s.mode.t.llens| <= MaxSymbols(Lens)
  {
    var d := Decode(Lens, s.mode.t.llens, p);
    if d.TooShort? then Stuck else Next(s.(mode := LenMode(s.mode.t, d.op, d.val)), d.length)
  }

  function LenExtStep(s: State, p: seq<bool>): Result
    requires s.mode.LenExt?
  {
    var m := s.mode;
    if |p| < m.extra then Stuck else Next(s.(mode := Dist(m.t, m.length + FromBits(p[..m.extra]))), m.extra)
  }

  function DistMode(t: Trees, length: nat, op: nat, val: nat): Mode {
    if (op / 64) % 2 == 1 then Bad else DistExt(t, length, val, op % 16)
  }

  ghost function DistStep(s: State, p: seq<bool>): Result
    requires s.mode.Dist? && |s.mode.t.dlens| <= MaxSymbols(Dists)
  {
    var d := Decode(Dists, s.mode.t.dlens, p);
    if d.TooShort? then Stuck else Next(s.(mode := DistMode(s.mode.t, s.mode.length, d.op, d.val)), d.length)
  }

  function DistExtStep(s: State, p: seq<bool>): Result
    requires s.mode.DistExt?
  {
    var m := s.mode;
    if |p| < m.extra then Stuck
    else Next(s.(mode := Matching(m.t, m.length, m.offset + FromBits(p[..m.extra]))), m.extra)
  }

  /** One byte of a match, from `offset` bytes back. */
  function MatchStep(s: State): Result
    requires s.mode.Matching? && s.mode.length > 0 && s.mode.offset > 0
  {
    var m := s.mode;
    if m.offset > |s.out| then Next(s.(mode := Bad), 0)
    else Next(State(if m.length == 1 then Len(m.t) else Matching(m.t, m.length - 1, m.offset), s.last,
                    s.out + [s.out[|s.out| - m.offset]]), 0)
  }

  function LitStep(s: State): Result
    requires s.mode.Lit? && s.mode.c < 256
  {
    Next(State(Len(s.mode.t), s.last, s.out + [s.mode.c]), 0)
  }

  ghost function Step(s: State, p: seq<bool>): Result
    requires s.Valid()
  {
    match s.mode
    case Type => TypeStep(s, p)
    case Stored => StoredStep(s, p)
    case Copying(_) => CopyStep(s, p)
    case Table => TableStep(s, p)
    case LenLens(_, _, _, _) => LenLensStep(s, p)
    case CodeLens(_, _, _, _) => CodeLensStep(s, p)
    case Len(_) => LenStep(s, p)
    case LenExt(_, _, _) => LenExtStep(s, p)
    case Dist(_, _) => DistStep(s, p)
    case DistExt(_, _, _, _) => DistExtStep(s, p)
    case Matching(_, _, _) => MatchStep(s)
    case Lit(_, _) => LitStep(s)
    case Done => Stuck
    case Bad => Stuck
  }

  // ---------- what every step keeps ----------

  /** The entries for match lengths: at least 3 and at most 258 with all extra bits set. */
  lemma LengthEntry(c: nat)
    requires c < 29
    ensures 16 <= LEXT[c] <= 21 && 3 <= LBASE[c] && LBASE[c] + Pow2(LEXT[c] - 16) <= MAX_LENGTH + 1
  {
    hide Pow2;
    BlockSymbols.SmallPowers();
  }

  /** The entries for distances: at least 1 and at most 32768 with all extra bits set. */
  lemma DistanceEntry(c: nat)
    requires c < 30
    ensures 16 <= DEXT[c] <= 29 && 1 <= DBASE[c] && DBASE[c] + Pow2(DEXT[c] - 16) <= MAX_DISTANCE + 1
  {
    hide Pow2;
    BlockSymbols.SmallPowers();
  }

  /** A decoded symbol is one of the code's, or the invalid one. */
  lemma DecodedSymbol(t: CodeType, lens: seq<nat>, p: seq<bool>) returns (s: nat)
    requires |lens| <= MaxSymbols(t) && Decode(t, lens, p).Decoded?
    ensures var d := Decode(t, lens, p);
      && 1 <= d.length <= MAXBITS && d.length <= |p|
      && ((d.op == INVALID.op && d.val == INVALID.val && d.length == 1) ||
          (Begins(lens, s, p) && d == Decoded(EntryOf(t, s, 0).op, EntryOf(t, s, 0).val, lens[s])))
  {
    hide EntryOf, FromBits, SentCode, Kraft;
    s := 0;
    if exists s: nat :: Begins(lens, s, p) {
      s :| Begins(lens, s, p) && Decode(t, lens, p) == Decoded(EntryOf(t, s, 0).op, EntryOf(t, s, 0).val, lens[s]);
    }
  }

  lemma BadIsValid(last: bool, out: seq<Byte>)
    ensures State(Bad, last, out).Valid()
  {
  }

  lemma LenFits(t: Trees)
    requires t.Valid()
    ensures |t.llens| <= MaxSymbols(Lens) == 288 && |t.dlens| <= MaxSymbols(Dists) == 32
  {
  }

  lemma LenModeKeeps(t: Trees, op: nat, val: nat, last: bool, out: seq<Byte>)
    requires t.Valid()
    requires (op == 0 && val < 256) || op in {96, 72, 78}
              || (16 <= op <= 21 && 3 <= val && val + Pow2(op - 16) <= MAX_LENGTH + 1)
    ensures State(LenMode(t, op, val), last, out).Valid()
  {
    hide Trees.Valid, Pow2;
  }

  lemma LenEntryKeeps(t: Trees, s: nat, last: bool, out: seq<Byte>)
    requires t.Valid() && s < MaxSymbols(Lens)
    ensures var e := EntryOf(Lens, s, 0); State(LenMode(t, e.op, e.val), last, out).Valid()
  {
    hide Trees.Valid, State.Valid, Pow2, LenMode;
    if 257 <= s < 286 {
      LengthEntry(s - 257);
    } else if 286 <= s {
      assert EntryOf(Lens, s, 0).op in {72, 78};
    }
    LenModeKeeps(t, EntryOf(Lens, s, 0).op, EntryOf(Lens, s, 0).val, last, out);
  }

  /** Whatever a literal or length code decodes to leads to a valid mode. */
  lemma LenKeeps(t: Trees, p: seq<bool>, last: bool, out: seq<Byte>)
    requires t.Valid() && |t.llens| <= MaxSymbols(Lens) && Decode(Lens, t.llens, p).Decoded?
    ensures var d := Decode(Lens, t.llens, p); State(LenMode(t, d.op, d.val), last, out).Valid() && d.length <= |p|
  {
    hide Decode, Trees.Valid, State.Valid, EntryOf;
    var s := DecodedSymbol(Lens, t.llens, p);
    if Begins(t.llens, s, p) {
      LenEntryKeeps(t, s, last, out);
    }
    BadIsValid(last, out);
  }

  lemma DistEntryKeeps(t: Trees, length: nat, s: nat, last: bool, out: seq<Byte>)
    requires t.Valid() && 3 <= length <= MAX_LENGTH && s < MaxSymbols(Dists)
    ensures var e := EntryOf(Dists, s, 0); State(DistMode(t, length, e.op, e.val), last, out).Valid()
  {
    hide Trees.Valid, Pow2;
    if s < 30 {
      DistanceEntry(s);
    } else {
      assert EntryOf(Dists, s, 0).op == 64;
    }
  }

  lemma DistKeeps(t: Trees, length: nat, p: seq<bool>, last: bool, out: seq<Byte>)
    requires t.Valid() && |t.dlens| <= MaxSymbols(Dists) && 3 <= length <= MAX_LENGTH
              && Decode(Dists, t.dlens, p).Decoded?
    ensures var d := Decode(Dists, t.dlens, p);
            State(DistMode(t, length, d.op, d.val), last, out).Valid() && d.length <= |p|
  {
    hide Decode, Trees.Valid, State.Valid, EntryOf;
    var s := DecodedSymbol(Dists, t.dlens, p);
    if Begins(t.dlens, s, p) {
      DistEntryKeeps(t, length, s, last, out);
    }
    BadIsValid(last, out);
  }

  // ---------- the fixed trees ----------

  /** How many of the first `n` fixed lengths are `l`. */
  function FixedCount(l: nat, n: nat): nat {
    if l == 8 then (if n <= 144 then n else if n <= 280 then 144 else n - 136)
    else if l == 9 then (if n <= 144 then 0 else if n <= 256 then n - 144 else 112)
    else if l == 7 then (if n <= 256 then 0 else if n <= 280 then n - 256 else 24)
    else 0
  }

  lemma {:induction false} CountFixed(l: nat, n: nat)
    requires n <= 288
    ensures Count(BlockSymbols.FixedLengths(), l, n) == FixedCount(l, n)
  {
    if n > 0 {
      CountFixed(l, n - 1);
    }
  }

  lemma {:induction false} CountEqual(lens: seq<nat>, x: nat, l: nat, n: nat)
    requires n <= |lens| && forall i :: 0 <= i < |lens| ==> lens[i] == x
    ensures Count(lens, l, n) == if l == x then n else 0
  {
    if n > 0 {
      CountEqual(lens, x, l, n - 1);
    }
  }

  lemma {:induction false} BelowNothing(lens: seq<nat>, m: nat, l: nat)
    requires 1 <= m <= l <= MAXBITS + 1 && forall k :: m <= k < l ==> Total(lens, k) == 0
    ensures HuffmanCode.Below(lens, l) == HuffmanCode.Below(lens, m)
  {
    if m < l {
      BelowNothing(lens, m, l - 1);
    }
  }

  lemma FixedLengthsComplete()
    ensures Kraft(BlockSymbols.FixedLengths()) == Pow2(MAXBITS)
  {
    var f := BlockSymbols.FixedLengths();
    hide Pow2, BlockSymbols.FixedLengths, Count;
    forall l: nat
      ensures Total(f, l) == FixedCount(l, 288)
    {
      CountFixed(l, 288);
    }
    BlockSymbols.SmallPowers();
    Pow2Add(8, 7);
    BelowNothing(f, 1, 7);
    assert HuffmanCode.Below(f, 8) == 24 * 256;
    assert HuffmanCode.Below(f, 9) == 24 * 256 + 152 * 128;
    assert HuffmanCode.Below(f, 10) == 0x8000;
    BelowNothing(f, 10, 16);
  }

  lemma FixedDistancesComplete()
    ensures Kraft(FixedTrees().dlens) == Pow2(MAXBITS)
  {
    var f := FixedTrees().dlens;
    hide Pow2, Count;
    forall l: nat
      ensures Total(f, l) == if l == 5 then 32 else 0
    {
      CountEqual(f, 5, l, 32);
    }
    BlockSymbols.SmallPowers();
    Pow2Add(8, 7);
    BelowNothing(f, 1, 5);
    assert HuffmanCode.Below(f, 6) == 0x8000;
    BelowNothing(f, 6, 16);
  }

  lemma FixedTreesValid()
    ensures FixedTrees().Valid()
  {
    FixedLengthsComplete();
    FixedDistancesComplete();
    hide Kraft;
  }

  // ---------- every step keeps the state valid, uses bits that are there, and only adds to the output ----------

  ghost predicate Good(s: State, p: seq<bool>, r: Result) {
    r.Next? ==> r.used <= |p| && r.state.Valid() && s.out <= r.state.out
  }

  lemma {:induction false} ScatterLess(got: seq<nat>, n: nat)
    requires |got| <= 19 && AllLess(got, n) && n > 0
    ensures AllLess(Scatter(got), n)
  {
    if got != [] {
      ScatterLess(got[..|got| - 1], n);
    }
  }

  lemma LenLensIs(s: State, p: seq<bool>)
    requires s.Valid() && s.mode.LenLens?
    ensures Step(s, p) == LenLensStep(s, p) && |s.mode.got| <= s.mode.ncode <= 19 && AllLess(s.mode.got, 8)
  {
  }

  /** The code length codes come in an order that names each of them once. */
  lemma OrderDistinct()
    ensures forall k :: 0 <= k < 19 ==> RunLengths.BL_ORDER[k] < 19
    ensures forall j, k :: 0 <= j < k < 19 ==> RunLengths.BL_ORDER[j] != RunLengths.BL_ORDER[k]
  {
  }

  const PLACE: seq<nat> := [3, 17, 15, 13, 11, 9, 7, 5, 4, 6, 8, 10, 12, 14, 16, 18, 0, 1, 2]

  lemma OrderComplete(i: nat)
    requires i < 19
    ensures PLACE[i] < 19 && RunLengths.BL_ORDER[PLACE[i]] == i
  {
  }

  lemma {:induction false} ScatterAt(got: seq<nat>, k: nat)
    requires |got| <= 19 && k < 19
    ensures RunLengths.BL_ORDER[k] < 19 && Scatter(got)[RunLengths.BL_ORDER[k]] == if k < |got| then got[k] else 0
  {
    OrderDistinct();
    if got != [] {
      ScatterAt(got[..|got| - 1], k);
    }
  }

  /** Lengths that were stored one by one, with zeroes for the others, are the scattered ones. */
  lemma ScatterIs(got: seq<nat>, s: seq<nat>)
    requires |got| <= 19 == |s|
    requires forall k :: 0 <= k < 19 ==>
              RunLengths.BL_ORDER[k] < 19 && s[RunLengths.BL_ORDER[k]] == if k < |got| then got[k] else 0
    ensures s == Scatter(got)
  {
    hide Scatter;
    forall i | 0 <= i < 19
      ensures s[i] == Scatter(got)[i]
    {
      var k := PlaceOf(i);
      ScatterAt(got, k);
    }
  }

  lemma PlaceOf(i: nat) returns (k: nat)
    requires i < 19
    ensures k < 19 && RunLengths.BL_ORDER[k] == i
  {
    OrderComplete(i);
    k := PLACE[i];
  }

  lemma LenLensKeeps(s: State, p: seq<bool>)
    requires s.Valid() && s.mode.LenLens?
    ensures Good(s, p, LenLensStep(s, p))
  {
    var m := s.mode;
    hide Accepted, Scatter;
    BlockSymbols.SmallPowers();
    if |m.got| < m.ncode {
    } else {
      ScatterLess(m.got, 8);
    }
  }

  lemma TreesKeep(got: seq<nat>, nlen: nat, last: bool, out: seq<Byte>)
    requires AllLess(got, 16) && 257 <= nlen <= 286 && nlen < |got| <= nlen + 30
    ensures State(TreesMode(got[..nlen], got[nlen..]), last, out).Valid()
  {
    hide Accepted;
  }

  lemma CodeLensKeeps(s: State, p: seq<bool>)
    requires s.Valid() && s.mode.CodeLens?
    ensures Good(s, p, CodeLensStep(s, p))
  {
    hide CodeValid, Decode;
    var m := s.mode;
    if |m.got| == m.nlen + m.ndist {
      TreesKeep(m.got, m.nlen, s.last, s.out);
    } else if Decode(Codes, m.clens, p).Decoded? {
      var sym := DecodedSymbol(Codes, m.clens, p);
    }
  }

  lemma TypeKeeps(s: State, p: seq<bool>)
    requires s.Valid() && s.mode.Type?
    ensures Good(s, p, TypeStep(s, p))
  {
    hide Trees.Valid, FixedTrees;
    FixedTreesValid();
  }

  lemma ExtKeeps(s: State, p: seq<bool>)
    requires s.Valid()
    ensures s.mode.LenExt? ==> Good(s, p, LenExtStep(s, p))
    ensures s.mode.DistExt? ==> Good(s, p, DistExtStep(s, p))
  {
    hide Trees.Valid;
  }

  lemma CodeKeeps(s: State, p: seq<bool>)
    requires s.Valid()
    ensures s.mode.Len? ==> Good(s, p, LenStep(s, p))
    ensures s.mode.Dist? ==> Good(s, p, DistStep(s, p))
  {
    hide Decode, LenMode, DistMode;
    if s.mode.Len? && Decode(Lens, s.mode.t.llens, p).Decoded? {
      LenKeeps(s.mode.t, p, s.last, s.out);
    }
    if s.mode.Dist? && Decode(Dists, s.mode.t.dlens, p).Decoded? {
      DistKeeps(s.mode.t, s.mode.length, p, s.last, s.out);
    }
  }

  lemma CopyKeeps(s: State, p: seq<bool>)
    requires s.Valid()
    ensures s.mode.Copying? ==> Good(s, p, CopyStep(s, p))
    ensures s.mode.Stored? ==> Good(s, p, StoredStep(s, p))
    ensures s.mode.Table? ==> Good(s, p, TableStep(s, p))
  {
    hide CodeValid;
  }

  lemma MatchKeeps(s: State, p: seq<bool>)
    requires s.Valid()
    ensures s.mode.Matching? ==> Good(s, p, MatchStep(s))
    ensures s.mode.Lit? ==> Good(s, p, LitStep(s))
  {
    hide CodeValid;
  }

  lemma StepKeeps(s: State, p: seq<bool>)
    requires s.Valid()
    ensures Good(s, p, Step(s, p))
  {
    hide Good, TypeStep, StoredStep, CopyStep, TableStep, LenLensStep, CodeLensStep, LenStep, LenExtStep,
         DistStep, DistExtStep, MatchStep, LitStep, CodeValid;
    match s.mode
    case Type => TypeKeeps(s, p);
    case LenLens(_, _, _, _) => LenLensKeeps(s, p);
    case CodeLens(_, _, _, _) => CodeLensKeeps(s, p);
    case Len(_) => CodeKeeps(s, p);
    case Dist(_, _) => CodeKeeps(s, p);
    case LenExt(_, _, _) => ExtKeeps(s, p);
    case DistExt(_, _, _, _) => ExtKeeps(s, p);
    case Matching(_, _, _) => MatchKeeps(s, p);
    case Lit(_, _) => MatchKeeps(s, p);
    case Stored => CopyKeeps(s, p);
    case Copying(_) => CopyKeeps(s, p);
    case Table => CopyKeeps(s, p);
    case _ => StuckIsGood(s, p);
  }

  lemma StuckIsGood(s: State, p: seq<bool>)
    ensures Good(s, p, Stuck)
  {
  }

  // ---------- more bits do not change what a step does ----------

  /** Bits that begin with a code still do when more follow, and with no other code. */
  lemma BeginsOnce(lens: seq<nat>, s: nat, s': nat, p: seq<bool>, q: seq<bool>)
    requires Kraft(lens) <= Pow2(MAXBITS) && Begins(lens, s, p) && Begins(lens, s', p + q)
    ensures s == s'
  {
    hide Kraft, Pow2, SentCode, FromBits;
    var w := FromBits(p + q);
    assert (p + q)[..lens[s]] == p[..lens[s]];
    FromBitsPrefix(p + q, lens[s]);
    FromBitsPrefix(p + q, lens[s']);
    SentCodeCovers(lens, s, w);
    SentCodeCovers(lens, s', w);
    PrefixFree(lens, s, s', Rev15(w));
  }

  lemma AcceptedKraft(t: CodeType, lens: seq<nat>)
    requires CodeValid(t, lens)
    ensures Kraft(lens) <= Pow2(MAXBITS)
    ensures Kraft(lens) < Pow2(MAXBITS) ==> forall s: nat :: Coded(lens, s) ==> lens[s] == 1
  {
    hide Kraft, Pow2;
    if Longest(lens) == 0 {
      NothingCoded(lens);
    }
    forall s: nat | Coded(lens, s) && Kraft(lens) < Pow2(MAXBITS)
      ensures lens[s] == 1
    {
      CountStrict(lens, s, |lens|);
      var n := Total(lens, lens[s]);
    }
  }

  lemma NothingCoded(lens: seq<nat>)
    requires Longest(lens) == 0
    ensures Kraft(lens) == 0 <= Pow2(MAXBITS)
  {
    BelowNothing(lens, 1, MAXBITS + 1);
  }

  lemma DecodeIs(t: CodeType, lens: seq<nat>, s: nat, p: seq<bool>)
    requires CodeValid(t, lens) && Begins(lens, s, p)
    ensures Decode(t, lens, p) == Decoded(EntryOf(t, s, 0).op, EntryOf(t, s, 0).val, lens[s])
  {
    hide EntryOf, Kraft, SentCode, FromBits, Accepted;
    AcceptedKraft(t, lens);
    var s': nat :| Begins(lens, s', p) && Decode(t, lens, p)
        == Decoded(EntryOf(t, s', 0).op, EntryOf(t, s', 0).val, lens[s']);
    assert p + [] == p;
    BeginsOnce(lens, s, s', p, []);
  }

  lemma BeganBefore(lens: seq<nat>, s: nat, p: seq<bool>, q: seq<bool>)
    requires Begins(lens, s, p + q) && lens[s] <= |p|
    ensures Begins(lens, s, p)
  {
    assert (p + q)[..lens[s]] == p[..lens[s]];
  }

  lemma DecodeMore(t: CodeType, lens: seq<nat>, p: seq<bool>, q: seq<bool>)
    requires CodeValid(t, lens) && Decode(t, lens, p).Decoded?
    ensures Decode(t, lens, p + q) == Decode(t, lens, p)
  {
    hide EntryOf, Kraft, SentCode, FromBits, Accepted, Pow2;
    AcceptedKraft(t, lens);
    if exists s: nat :: Begins(lens, s, p) {
      var s: nat :| Begins(lens, s, p);
      assert (p + q)[..lens[s]] == p[..lens[s]];
      assert Begins(lens, s, p + q);
      DecodeIs(t, lens, s, p);
      DecodeIs(t, lens, s, p + q);
    } else {
      forall s: nat
        ensures !Begins(lens, s, p + q)
      {
        if Begins(lens, s, p + q) {
          BeganBefore(lens, s, p, q);
        }
      }
    }
  }

  lemma SlicesMore(p: seq<bool>, q: seq<bool>)
    ensures forall a: nat, b: nat :: a <= b <= |p| ==> (p + q)[a..b] == p[a..b]
    ensures forall b: nat :: b <= |p| ==> (p + q)[..b] == p[..b]
  {
  }

  lemma CodeLensMore(s: State, p: seq<bool>, q: seq<bool>)
    requires s.Valid() && s.mode.CodeLens? && CodeLensStep(s, p).Next?
    ensures CodeLensStep(s, p + q) == CodeLensStep(s, p)
  {
    hide Decode, CodeValid, FromBits, TreesMode;
    var m := s.mode;
    SlicesMore(p, q);
    if |m.got| < m.nlen + m.ndist {
      DecodeMore(Codes, m.clens, p, q);
    }
  }

  lemma BlockMore(s: State, p: seq<bool>, q: seq<bool>)
    requires |q| % 8 == 0
    ensures TypeStep(s, p).Next? ==> TypeStep(s, p + q) == TypeStep(s, p)
    ensures StoredStep(s, p).Next? ==> StoredStep(s, p + q) == StoredStep(s, p)
  {
    hide FromBits, BlockMode;
    SlicesMore(p, q);
  }

  lemma TableMore(s: State, p: seq<bool>, q: seq<bool>)
    requires TableStep(s, p).Next?
    ensures TableStep(s, p + q) == TableStep(s, p)
  {
    hide FromBits;
    SlicesMore(p, q);
  }

  lemma ExtMore(s: State, p: seq<bool>, q: seq<bool>)
    ensures s.mode.LenExt? && LenExtStep(s, p).Next? ==> LenExtStep(s, p + q) == LenExtStep(s, p)
    ensures s.mode.DistExt? && DistExtStep(s, p).Next? ==> DistExtStep(s, p + q) == DistExtStep(s, p)
    ensures s.mode.Copying? && CopyStep(s, p).Next? ==> CopyStep(s, p + q) == CopyStep(s, p)
    ensures s.mode.LenLens? && |s.mode.got| <= s.mode.ncode <= 19 && LenLensStep(s, p).Next? ==>
              LenLensStep(s, p + q) == LenLensStep(s, p)
  {
    hide FromBits, Accepted, Scatter;
    SlicesMore(p, q);
  }

  /** More bytes do not change what a step does. */
  lemma StepMore(s: State, p: seq<bool>, q: seq<bool>)
    requires s.Valid() && Step(s, p).Next? && |q| % 8 == 0
    ensures Step(s, p + q) == Step(s, p)
  {
    hide Decode, CodeValid, TypeStep, StoredStep, CopyStep, TableStep, LenLensStep, CodeLensStep, LenExtStep,
         DistExtStep, MatchStep, LitStep,
         LenMode, DistMode;
    match s.mode
    case CodeLens(_, _, _, _) => CodeLensMore(s, p, q);
    case Len(t) => DecodeMore(Lens, t.llens, p, q);
    case Dist(t, _) => DecodeMore(Dists, t.dlens, p, q);
    case Matching(_, _, _) =>
    case Lit(_, _) =>
    case Done =>
    case Bad =>
    case Table => TableMore(s, p, q);
    case _ =>
      BlockMore(s, p, q);
      ExtMore(s, p, q);
  }

  // ---------- runs ----------

  /** The state with the bits that have been read but not used. */
  datatype Config = Config(s: State, p: seq<bool>)

  datatype Option<T> = None | Some(value: T)

  /** Exactly `k` steps. */
  ghost function Steps(c: Config, k: nat): (r: Option<Config>)
    requires c.s.Valid()
    ensures r.Some? ==> r.value.s.Valid() && c.s.out <= r.value.s.out && |r.value.p| <= |c.p|
  {
    if k == 0 then Some(c)
    else
      match Steps(c, k - 1)
      case None => None
      case Some(d) =>
        StepKeeps(d.s, d.p);
        match Step(d.s, d.p)
        case Stuck => None
        case Next(s, used) => Some(Config(s, d.p[used..]))
  }

  const INITIAL: State := State(Type, false, [])

  /** The decoder can be in this state when it has read exactly these bytes. */
  ghost predicate Reached(input: seq<Byte>, c: Config): (r: bool)
    ensures r ==> c.s.Valid()
  {
    exists k: nat :: Steps(Config(INITIAL, BytesToBits(input)), k) == Some(c)
  }

  /** No further step is possible. */
  ghost predicate Halted(c: Config) {
    c.s.Valid() && Step(c.s, c.p).Stuck?
  }

  lemma {:induction false} StepsMore(c: Config, q: seq<bool>, k: nat)
    requires c.s.Valid() && Steps(c, k).Some? && |q| % 8 == 0
    ensures Steps(Config(c.s, c.p + q), k) == Some(Config(Steps(c, k).value.s, Steps(c, k).value.p + q))
  {
    hide Step;
    if k > 0 {
      StepsMore(c, q, k - 1);
      var d := Steps(c, k - 1).value;
      StepKeeps(d.s, d.p);
      StepMore(d.s, d.p, q);
      var used := Step(d.s, d.p).used;
      assert (d.p + q)[used..] == d.p[used..] + q;
    }
  }

  lemma {:induction false} BytesToBitsJoin(a: seq<Byte>, b: seq<Byte>)
    ensures BytesToBits(a + b) == BytesToBits(a) + BytesToBits(b)
  {
    hide ToBits;
    if b == [] {
      assert a + b == a;
    } else {
      BytesToBitsJoin(a, b[..|b| - 1]);
      assert (a + b)[..|a + b| - 1] == a + b[..|b| - 1];
    }
  }

  /** Reading more bytes only adds their bits to the unused ones. */
  lemma ReachedMore(input: seq<Byte>, c: Config, more: seq<Byte>)
    requires Reached(input, c)
    ensures Reached(input + more, Config(c.s, c.p + BytesToBits(more)))
  {
    hide Steps;
    var k: nat :| Steps(Config(INITIAL, BytesToBits(input)), k) == Some(c);
    StepsMore(Config(INITIAL, BytesToBits(input)), BytesToBits(more), k);
    BytesToBitsJoin(input, more);
  }

  lemma ReachedStep(input: seq<Byte>, c: Config)
    requires Reached(input, c) && c.s.Valid() && Step(c.s, c.p).Next?
    ensures Step(c.s, c.p).used <= |c.p| && Reached(input, Config(Step(c.s, c.p).state, c.p[Step(c.s, c.p).used..]))
  {
    hide Step;
    var k: nat :| Steps(Config(INITIAL, BytesToBits(input)), k) == Some(c);
    StepKeeps(c.s, c.p);
    assert Steps(Config(INITIAL, BytesToBits(input)), k + 1)
           == Some(Config(Step(c.s, c.p).state, c.p[Step(c.s, c.p).used..]));
  }

  /** A run that has ended cannot be continued, and no other one ends elsewhere. */
  lemma {:induction false} HaltedIsLast(c: Config, j: nat, k: nat)
    requires c.s.Valid() && Steps(c, j).Some? && Steps(c, k).Some? && Halted(Steps(c, j).value)
    ensures k <= j && Steps(c, k).value.s.out <= Steps(c, j).value.s.out
    decreases if k <= j then j - k else k
  {
    hide Step;
    if k < j {
      StepsPrefix(c, k, j);
    } else if k > j {
      HaltedIsLast(c, j, k - 1);
    }
  }

  /** What has been put out early is a prefix of what has been put out later. */
  lemma {:induction false} StepsPrefix(c: Config, j: nat, k: nat)
    requires c.s.Valid() && j <= k && Steps(c, k).Some?
    ensures Steps(c, j).Some? && Steps(c, j).value.s.out <= Steps(c, k).value.s.out
  {
    hide Step;
    if j < k {
      StepsPrefix(c, j, k - 1);
      var d := Steps(c, k - 1).value;
      StepKeeps(d.s, d.p);
    }
  }

  /**
    The end does not depend on how it was reached: when all of the input has been read and no step
    is possible, the state, the unused bits and the output are determined by the input alone.
   */
  lemma SameEnd(input: seq<Byte>, c: Config, d: Config)
    requires Reached(input, c) && Reached(input, d) && Halted(c) && Halted(d)
    ensures c == d
  {
    hide Steps, Step;
    var start := Config(INITIAL, BytesToBits(input));
    var j: nat :| Steps(start, j) == Some(c);
    var k: nat :| Steps(start, k) == Some(d);
    HaltedIsLast(start, j, k);
    HaltedIsLast(start, k, j);
  }

  /** Whatever was put out after a part of the input is a prefix of all the output. */
  lemma EarlierOutput(input: seq<Byte>, more: seq<Byte>, c: Config, d: Config)
    requires Reached(input, c) && Reached(input + more, d) && Halted(d)
    ensures c.s.out <= d.s.out
  {
    hide Steps, Step;
    ReachedMore(input, c, more);
    var start, c' := Config(INITIAL, BytesToBits(input + more)), Config(c.s, c.p + BytesToBits(more));
    var j: nat :| Steps(start, j) == Some(d);
    var k: nat :| Steps(start, k) == Some(c');
    HaltedIsLast(start, j, k);
  }

  // ---------- several steps at once ----------

  /** Stored bytes are put out as they are. */
  lemma {:induction false} ReachedCopy(input: seq<Byte>, s: State, data: seq<Byte>)
    requires Reached(input, Config(s, [])) && s.mode.Copying? && |data| <= s.mode.left
    ensures Reached(input + data, Config(State(Copying(s.mode.left - |data|), s.last, s.out + data), []))
  {
    hide Reached, FromBits, ToBits;
    if data == [] {
      assert input + data == input && s.out + data == s.out;
    } else {
      var front, b := data[..|data| - 1], data[|data| - 1];
      ReachedCopy(input, s, front);
      var d := State(Copying(s.mode.left - |front|), s.last, s.out + front);
      ReachedMore(input + front, Config(d, []), [b]);
      assert input + front + [b] == input + data && s.out + front + [b] == s.out + data;
      OneByte(b);
      assert ToBits(b, 8)[8..] == [];
      ReachedStep(input + data, Config(d, ToBits(b, 8)));
    }
  }

  lemma OneByte(b: Byte)
    ensures [] + BytesToBits([b]) == ToBits(b, 8) && FromBits(ToBits(b, 8)) == b && ToBits(b, 8)[..8] == ToBits(b, 8)
  {
    BlockSymbols.SmallPowers();
    FromTo(b, 8);
    BytesToBitsAppend([], b);
    assert [] + [b] == [b];
  }

  /** The mode after `n` bytes of a match. */
  function MatchRest(m: Mode, n: nat): Mode
    requires m.Matching? && n <= m.length
  {
    if n == m.length then Len(m.t) else Matching(m.t, m.length - n, m.offset)
  }

  lemma ReachedMatchOne(input: seq<Byte>, s: State, p: seq<bool>)
    requires Reached(input, Config(s, p)) && s.mode.Matching? && 1 <= s.mode.length && 1 <= s.mode.offset <= |s.out|
    ensures Reached(input, Config(State(MatchRest(s.mode, 1), s.last, s.out + [s.out[|s.out| - s.mode.offset]]), p))
  {
    hide Reached;
    ReachedStep(input, Config(s, p));
    assert p[0..] == p;
  }

  /** Bytes of a match, one after the other. */
  lemma {:induction false} ReachedMatch(input: seq<Byte>, s: State, p: seq<bool>, n: nat)
    requires Reached(input, Config(s, p)) && s.mode.Matching? && 1 <= n <= s.mode.length
              && 1 <= s.mode.offset <= |s.out|
    ensures Reached(input, Config(State(MatchRest(s.mode, n), s.last, Copy(s.out, s.mode.offset, n)), p))
  {
    hide Reached, State.Valid;
    var m := s.mode;
    if n == 1 {
      assert Copy(s.out, m.offset, 0) == s.out;
      ReachedMatchOne(input, s, p);
    } else {
      ReachedMatch(input, s, p, n - 1);
      ReachedMatchOne(input, State(MatchRest(m, n - 1), s.last, Copy(s.out, m.offset, n - 1)), p);
    }
  }

  // ---------- runs within a block's symbols, and giving back bytes that were read too early ----------

  predicate InBlock(m: Mode) {
    m.Len? || m.LenExt? || m.Dist? || m.DistExt? || m.Matching? || m.Lit?
  }

  /** Exactly `k` steps, all of them within a block's symbols. */
  ghost function BlockSteps(c: Config, k: nat): (r: Option<Config>)
    requires c.s.Valid()
    ensures r.Some? ==> r == Steps(c, k)
  {
    if k == 0 then Some(c)
    else
      match BlockSteps(c, k - 1)
      case None => None
      case Some(d) => if InBlock(d.s.mode) then Steps(c, k) else None
  }

  /** The configuration `d` comes after `c`. */
  ghost predicate Leads(c: Config, d: Config) {
    c.s.Valid() && exists k: nat :: BlockSteps(c, k) == Some(d)
  }

  lemma LeadsValid(c: Config, d: Config)
    requires Leads(c, d)
    ensures d.s.Valid() && |d.p| <= |c.p| && c.s.out <= d.s.out
  {
    hide Steps, BlockSteps;
    var k: nat :| BlockSteps(c, k) == Some(d);
    assert Steps(c, k) == Some(d);
  }

  lemma LeadsStart(c: Config)
    requires c.s.Valid()
    ensures Leads(c, c)
  {
    assert BlockSteps(c, 0) == Some(c);
  }

  lemma LeadsStep(c: Config, d: Config)
    requires Leads(c, d) && d.s.Valid() && InBlock(d.s.mode) && Step(d.s, d.p).Next?
    ensures Step(d.s, d.p).used <= |d.p| && Leads(c, Config(Step(d.s, d.p).state, d.p[Step(d.s, d.p).used..]))
  {
    hide Step;
    var k: nat :| BlockSteps(c, k) == Some(d);
    StepKeeps(d.s, d.p);
    assert BlockSteps(c, k + 1) == Some(Config(Step(d.s, d.p).state, d.p[Step(d.s, d.p).used..]));
  }

  lemma {:induction false} BlockStepsMore(c: Config, q: seq<bool>, k: nat)
    requires c.s.Valid() && BlockSteps(c, k).Some? && |q| % 8 == 0
    ensures BlockSteps(Config(c.s, c.p + q), k) == Some(Config(BlockSteps(c, k).value.s, BlockSteps(c, k).value.p + q))
  {
    hide Step;
    if k > 0 {
      BlockStepsMore(c, q, k - 1);
      StepsMore(c, q, k);
    }
  }

  lemma LeadsMore(c: Config, d: Config, q: seq<bool>)
    requires Leads(c, d) && |q| % 8 == 0
    ensures Leads(Config(c.s, c.p + q), Config(d.s, d.p + q))
  {
    hide BlockSteps;
    var k: nat :| BlockSteps(c, k) == Some(d);
    BlockStepsMore(c, q, k);
  }

  lemma BeginsMore(lens: seq<nat>, s: nat, p: seq<bool>, q: seq<bool>)
    requires Begins(lens, s, p)
    ensures Begins(lens, s, p + q)
  {
    assert (p + q)[..lens[s]] == p[..lens[s]];
  }

  /** A code that leaves bits over is there without those. */
  lemma DecodeLess(t: CodeType, lens: seq<nat>, p: seq<bool>, q: seq<bool>)
    requires CodeValid(t, lens) && Decode(t, lens, p + q).Decoded? && Decode(t, lens, p + q).length <= |p|
    ensures Decode(t, lens, p) == Decode(t, lens, p + q)
  {
    hide EntryOf, SentCode, FromBits, Accepted, Pow2, Kraft;
    if exists s: nat :: Begins(lens, s, p + q) {
      var s: nat :| Begins(lens, s, p + q);
      DecodeIs(t, lens, s, p + q);
      BeganBefore(lens, s, p, q);
      DecodeIs(t, lens, s, p);
    } else {
      forall s: nat
        ensures !Begins(lens, s, p)
      {
        if Begins(lens, s, p) {
          BeginsMore(lens, s, p, q);
        }
      }
    }
  }

  /** Within a block's symbols a step that leaves bits over is possible without those. */
  lemma StepLess(s: State, p: seq<bool>, q: seq<bool>)
    requires s.Valid() && InBlock(s.mode) && Step(s, p + q).Next? && Step(s, p + q).used <= |p|
    ensures Step(s, p) == Step(s, p + q)
  {
    hide Decode, CodeValid, FromBits, LenMode, DistMode;
    SlicesMore(p, q);
    match s.mode
    case Len(t) => DecodeLess(Lens, t.llens, p, q);
    case Dist(t, _) => DecodeLess(Dists, t.dlens, p, q);
    case _ =>
  }

  lemma {:induction false} BlockStepsLess(c: Config, q: seq<bool>, k: nat, d: Config)
    requires c.s.Valid() && BlockSteps(Config(c.s, c.p + q), k) == Some(d) && |d.p| >= |q|
    ensures d.p == d.p[..|d.p| - |q|] + q
    ensures BlockSteps(c, k) == Some(Config(d.s, d.p[..|d.p| - |q|]))
  {
    hide Step, State.Valid;
    if k == 0 {
      assert (c.p + q)[..|c.p|] == c.p;
    } else {
      var e := BlockSteps(Config(c.s, c.p + q), k - 1).value;
      BlockStepsLast(Config(c.s, c.p + q), k, e, d);
      BlockStepsLess(c, q, k - 1, e);
      var front := Config(e.s, e.p[..|e.p| - |q|]);
      OneStepLess(front, q, d);
      assert Steps(c, k) == Some(Config(d.s, d.p[..|d.p| - |q|]));
    }
  }

  lemma BlockStepsLast(c: Config, k: nat, e: Config, d: Config)
    requires c.s.Valid() && k > 0 && BlockSteps(c, k - 1) == Some(e) && BlockSteps(c, k) == Some(d)
    ensures e.s.Valid() && InBlock(e.s.mode) && Step(e.s, e.p).Next? && Step(e.s, e.p).used <= |e.p| && |d.p| <= |e.p|
    ensures d == Config(Step(e.s, e.p).state, e.p[Step(e.s, e.p).used..])
  {
    hide Step;
    StepKeeps(e.s, e.p);
  }

  lemma OneStepLess(e: Config, q: seq<bool>, d: Config)
    requires e.s.Valid() && InBlock(e.s.mode) && Step(e.s, e.p + q).Next? && Step(e.s, e.p + q).used <= |e.p + q|
    requires d == Config(Step(e.s, e.p + q).state, (e.p + q)[Step(e.s, e.p + q).used..]) && |d.p| >= |q|
    ensures d.p == d.p[..|d.p| - |q|] + q && Step(e.s, e.p) == Step(e.s, e.p + q)
    ensures d.p[..|d.p| - |q|] == e.p[Step(e.s, e.p).used..]
  {
    hide Step, State.Valid;
    StepLess(e.s, e.p, q);
    var used := Step(e.s, e.p).used;
    assert (e.p + q)[used..] == e.p[used..] + q;
  }

  /** Bytes whose bits are all left over need not have been read. */
  lemma LeadsLess(c: Config, q: seq<bool>, d: Config)
    requires c.s.Valid() && Leads(Config(c.s, c.p + q), d) && |d.p| >= |q|
    ensures d.p == d.p[..|d.p| - |q|] + q && Leads(c, Config(d.s, d.p[..|d.p| - |q|]))
  {
    hide BlockSteps;
    var k: nat :| BlockSteps(Config(c.s, c.p + q), k) == Some(d);
    BlockStepsLess(c, q, k, d);
  }

  /** Where no step was possible, any progress has used more than was there. */
  lemma HaltedUses(c: Config, q: seq<bool>, d: Config)
    requires Halted(c) && InBlock(c.s.mode) && Leads(Config(c.s, c.p + q), d) && |d.p| < |c.p| + |q|
    ensures |d.p| < |q|
  {
    if |d.p| >= |q| {
      LeadsLess(c, q, d);
      hide Step;
      var d' := Config(d.s, d.p[..|d.p| - |q|]);
      var k: nat :| BlockSteps(c, k) == Some(d');
      assert Steps(c, 0) == Some(c) && Steps(c, k) == Some(d');
      HaltedIsLast(c, 0, k);
    }
  }

  lemma {:induction false} StepsJoin(c: Config, j: nat, k: nat)
    requires c.s.Valid() && Steps(c, j).Some? && Steps(Steps(c, j).value, k).Some?
    ensures Steps(c, j + k) == Steps(Steps(c, j).value, k)
  {
    hide Step;
    if k > 0 {
      StepsJoin(c, j, k - 1);
    }
  }

  lemma ReachedLeads(input: seq<Byte>, c: Config, d: Config)
    requires Reached(input, c) && Leads(c, d)
    ensures Reached(input, d)
  {
    hide Steps, BlockSteps;
    var j: nat :| Steps(Config(INITIAL, BytesToBits(input)), j) == Some(c);
    var k: nat :| BlockSteps(c, k) == Some(d);
    assert Steps(c, k) == Some(d);
    StepsJoin(Config(INITIAL, BytesToBits(input)), j, k);
  }

  lemma LeadsCopyOne(c: Config, d: Config)
    requires d.s.mode.Matching? && 1 <= d.s.mode.length && 1 <= d.s.mode.offset <= |d.s.out|
    requires Leads(c, d) && d.s.Valid()
    ensures Leads(c, Config(State(MatchRest(d.s.mode, 1), d.s.last, d.s.out + [d.s.out[|d.s.out| - d.s.mode.offset]]),
              d.p))
  {
    hide Leads;
    LeadsStep(c, d);
    assert d.p[0..] == d.p;
  }

  lemma {:induction false} LeadsCopy(c: Config, d: Config, n: nat)
    requires Leads(c, d) && d.s.Valid() && d.s.mode.Matching? && 1 <= n <= d.s.mode.length
              && 1 <= d.s.mode.offset <= |d.s.out|
    ensures Leads(c, Config(State(MatchRest(d.s.mode, n), d.s.last, Copy(d.s.out, d.s.mode.offset, n)), d.p))
  {
    hide Leads, State.Valid, Step;
    if n == 1 {
      assert Copy(d.s.out, d.s.mode.offset, 0) == d.s.out;
      LeadsCopyOne(c, d);
    } else {
      LeadsCopy(c, d, n - 1);
      var e := Config(State(MatchRest(d.s.mode, n - 1), d.s.last, Copy(d.s.out, d.s.mode.offset, n - 1)), d.p);
      LeadsValid(c, e);
      LeadsCopyOne(c, e);
    }
  }

  // ---------- what a whole input means ----------

  /** The decoder ends in this state when it is given all of the input: it is at an end, or has read everything. */
  ghost predicate Inflates(input: seq<Byte>, s: State) {
    exists n: nat, p: seq<bool> ::
      n <= |input| && Reached(input[..n], Config(s, p)) && Halted(Config(s, p))
          && (n == |input| || s.mode.Done? || s.mode.Bad?)
  }

  lemma EndStays(s: State, p: seq<bool>, q: seq<bool>)
    requires Halted(Config(s, p)) && (q == [] || s.mode.Done? || s.mode.Bad?)
    ensures Halted(Config(s, p + q))
  {
    if q == [] {
      assert p + q == p;
    }
  }

  /** It cannot end in two different states. */
  lemma InflatesOnce(input: seq<Byte>, s: State, t: State)
    requires Inflates(input, s) && Inflates(input, t)
    ensures s == t
  {
    hide Reached, Halted, BytesToBits;
    var n: nat, p: seq<bool> :|
      n <= |input| && Reached(input[..n], Config(s, p)) && Halted(Config(s, p))
          && (n == |input| || s.mode.Done? || s.mode.Bad?);
    var m: nat, q: seq<bool> :|
      m <= |input| && Reached(input[..m], Config(t, q)) && Halted(Config(t, q))
          && (m == |input| || t.mode.Done? || t.mode.Bad?);
    assert input == input[..n] + input[n..] && input == input[..m] + input[m..];
    ReachedMore(input[..n], Config(s, p), input[n..]);
    ReachedMore(input[..m], Config(t, q), input[m..]);
    EndStays(s, p, BytesToBits(input[n..]));
    EndStays(t, q, BytesToBits(input[m..]));
    SameEnd(input, Config(s, p + BytesToBits(input[n..])), Config(t, q + BytesToBits(input[m..])));
  }

  /** Whatever has been put out on the way is the beginning of the whole output. */
  lemma InflatesPrefix(input: seq<Byte>, n: nat, c: Config, s: State)
    requires n <= |input| && Reached(input[..n], c) && Inflates(input, s)
    ensures c.s.out <= s.out
  {
    hide Reached, Halted, BytesToBits;
    var m: nat, q: seq<bool> :|
      m <= |input| && Reached(input[..m], Config(s, q)) && Halted(Config(s, q))
          && (m == |input| || s.mode.Done? || s.mode.Bad?);
    assert input == input[..n] + input[n..] && input == input[..m] + input[m..];
    ReachedMore(input[..m], Config(s, q), input[m..]);
    EndStays(s, q, BytesToBits(input[m..]));
    EarlierOutput(input[..n], input[n..], c, Config(s, q + BytesToBits(input[m..])));
  }
}
