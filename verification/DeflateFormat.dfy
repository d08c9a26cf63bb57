/**
  What section 3.2 of RFC 1951 lays down, stated about the decoder without its tables: the kinds of blocks, the headers,
  the codewords of the fixed trees, and the lengths and distances that symbols stand for.
 */
module DeflateFormat {
  import opened Arithmetic
  import opened Bits
  import opened BlockSymbols
  import opened DecodingTable
  import opened HuffmanCode
  import opened Inflation
  import RunLengths

  // ---------- the fixed trees ----------

  lemma {:induction false} NoShortCodes(lens: seq<nat>, l: nat)
    requires 1 <= l <= MAXBITS && forall k: nat :: 1 <= k < l ==> Total(lens, k) == 0
    ensures FirstCode(lens, l) == 0
  {
    if l > 1 {
      NoShortCodes(lens, l - 1);
    }
  }

  lemma FixedFirstCodes()
    ensures FirstCode(FixedLengths(), 7) == 0 && FirstCode(FixedLengths(), 8) == 0x30
    ensures FirstCode(FixedLengths(), 9) == 0x190
  {
    var f := FixedLengths();
    hide FixedLengths, Count;
    forall l: nat
      ensures Total(f, l) == FixedCount(l, 288)
    {
      CountFixed(l, 288);
    }
    NoShortCodes(f, 7);
    assert FirstCode(f, 8) == 2 * (FirstCode(f, 7) + Total(f, 7));
    assert FirstCode(f, 9) == 2 * (FirstCode(f, 8) + Total(f, 8));
  }

  /** Length and codeword of symbol `n` in the fixed tree for literals and lengths (section 3.2.6 of RFC 1951). */
  function FixedCodeOf(n: nat): (nat, nat)
    requires n < 288
  {
    if n <= 143 then (8, 0x30 + n)
    else if n <= 255 then (9, 0x190 + (n - 144))
    else if n <= 279 then (7, n - 256)
    else (8, 0xC0 + (n - 280))
  }

  lemma FixedCodeword(n: nat)
    requires n < 288
    ensures var f := FixedTrees().llens; |f| == 288 && Coded(f, n) && (f[n], Codeword(f, n)) == FixedCodeOf(n)
  {
    hide FirstCode, Count;
    FixedFirstCodes();
    CountFixed(FixedLengths()[n], n);
  }

  /** The codewords of the fixed tree for distances are the numbers of the codes, in five bits. */
  lemma FixedDistance(n: nat)
    requires n < 32
    ensures var f := FixedTrees().dlens; |f| == 32 && f[n] == 5 && Codeword(f, n) == n
  {
    var f := FixedTrees().dlens;
    hide FirstCode, Count;
    forall l: nat
      ensures Total(f, l) == if l == 5 then 32 else 0
    {
      CountEqual(f, 5, l, 32);
    }
    NoShortCodes(f, 5);
    CountEqual(f, 5, 5, n);
  }

  // ---------- the headers ----------

  /** A block's header: whether it is the last one, and two bits for its kind (section 3.2.3 of RFC 1951). */
  lemma BlockKinds(s: State, p: seq<bool>)
    requires s.mode.Type? && !s.last && |p| >= 3
    ensures Step(s, p).Next? && Step(s, p).used == 3
    ensures var t := Step(s, p).state;
      && t.last == p[0] && t.out == s.out
      && (!p[1] && !p[2] ==> t.mode.Stored?)
      && (p[1] && !p[2] ==> t.mode == Len(FixedTrees()))
      && (!p[1] && p[2] ==> t.mode.Table?)
      && (p[1] && p[2] ==> t.mode.Bad?)
  {
    var k := p[1..3];
    assert k == [p[1], p[2]] && k[1..] == [p[2]] && k[1..][1..] == [];
    assert FromBits(k) == (if p[1] then 1 else 0) + 2 * FromBits(k[1..]);
    assert FromBits(k[1..]) == (if p[2] then 1 else 0) + 2 * FromBits(k[1..][1..]);
  }

  /** The bits of `b` are those of `a` inverted. */
  predicate Inverted(a: seq<bool>, b: seq<bool>) {
    |a| == |b| && forall k :: 0 <= k < |a| ==> b[k] == !a[k]
  }

  /** A number and another one of as many bits add up to all ones exactly if all bits differ. */
  lemma {:induction false} AllOnes(a: seq<bool>, b: seq<bool>)
    requires |a| == |b|
    ensures FromBits(a) + FromBits(b) == Pow2(|a|) - 1 <==> Inverted(a, b)
  {
    if a != [] {
      AllOnes(a[1..], b[1..]);
      assert Inverted(a, b) <==> b[0] == !a[0] && Inverted(a[1..], b[1..]) by {
        if b[0] == !a[0] && Inverted(a[1..], b[1..]) {
          forall k | 0 <= k < |a|
            ensures b[k] == !a[k]
          {
            if k > 0 {
              assert b[1..][k - 1] == !a[1..][k - 1];
            }
          }
        }
        if Inverted(a, b) {
          forall k | 0 <= k < |a| - 1
            ensures b[1..][k] == !a[1..][k]
          {
            assert b[k + 1] == !a[k + 1];
          }
        }
      }
    }
  }

  /** A stored block begins on a byte boundary, with its length and the length inverted (section 3.2.4 of RFC 1951). */
  lemma StoredHeader(s: State, p: seq<bool>)
    requires s.mode.Stored? && |p| % 8 == 0 && |p| >= 32
    ensures Step(s, p).Next?
    ensures Step(s, p).state.mode ==
            if Inverted(p[..16], p[16..32]) then Copying(FromBits(p[..16])) else Bad
  {
    hide FromBits;
    SmallPowers();
    Pow2Add(8, 8);
    AllOnes(p[..16], p[16..32]);
  }

  /** The counts of a block with its own trees, in 5, 5 and 4 bits (section 3.2.7 of RFC 1951). */
  lemma TableHeader(s: State, hlit: nat, hdist: nat, hclen: nat, rest: seq<bool>)
    requires s.mode.Table? && hlit < 32 && hdist < 32 && hclen < 16
    ensures var r := Step(s, ToBits(hlit, 5) + ToBits(hdist, 5) + ToBits(hclen, 4) + rest);
      r.Next? && r.used == 14 &&
      r.state.mode == if hlit + 257 > 286 || hdist + 1 > 30 then Bad
                      else LenLens(hlit + 257, hdist + 1, hclen + 4, [])
  {
    hide FromBits, ToBits;
    SmallPowers();
    var p := ToBits(hlit, 5) + ToBits(hdist, 5) + ToBits(hclen, 4) + rest;
    assert p[..5] == ToBits(hlit, 5) && p[5..10] == ToBits(hdist, 5) && p[10..14] == ToBits(hclen, 4);
    FromTo(hlit, 5);
    FromTo(hdist, 5);
    FromTo(hclen, 4);
  }

  lemma ScatterOne(got: seq<nat>, x: nat)
    requires |got| < 19
    ensures Scatter(got + [x]) == Scatter(got)[RunLengths.BL_ORDER[|got|] := x]
  {
    var g := got + [x];
    assert g[..|g| - 1] == got;
  }

  lemma OrderIs()
    ensures RunLengths.BL_ORDER == [16, 17, 18, 0, 8, 7, 9, 6, 10, 5, 11, 4, 12, 3, 13, 2, 14, 1, 15]
  {
  }

  /** The lengths of the code length codes come in an order of their own (section 3.2.7 of RFC 1951). */
  lemma OrderOfLengths(g: seq<nat>)
    requires |g| == 19
    ensures var s := Scatter(g);
      && s[16] == g[0] && s[17] == g[1] && s[18] == g[2] && s[0] == g[3] && s[8] == g[4] && s[7] == g[5]
      && s[9] == g[6] && s[6] == g[7] && s[10] == g[8] && s[5] == g[9] && s[11] == g[10] && s[4] == g[11]
      && s[12] == g[12] && s[3] == g[13] && s[13] == g[14] && s[2] == g[15] && s[14] == g[16] && s[1] == g[17]
      && s[15] == g[18]
  {
    hide Scatter;
    OrderIs();
    forall k: nat | k < 19
      ensures RunLengths.BL_ORDER[k] < 19 && Scatter(g)[RunLengths.BL_ORDER[k]] == g[k]
    {
      ScatterAt(g, k);
    }
    var o := RunLengths.BL_ORDER;
    assert Scatter(g)[o[0]] == g[0] && Scatter(g)[o[1]] == g[1] && Scatter(g)[o[2]] == g[2] && Scatter(g)[o[3]] == g[3];
    assert Scatter(g)[o[4]] == g[4] && Scatter(g)[o[5]] == g[5] && Scatter(g)[o[6]] == g[6] && Scatter(g)[o[7]] == g[7];
    assert Scatter(g)[o[8]] == g[8] && Scatter(g)[o[9]] == g[9] && Scatter(g)[o[10]] == g[10];
    assert Scatter(g)[o[11]] == g[11] && Scatter(g)[o[12]] == g[12] && Scatter(g)[o[13]] == g[13];
    assert Scatter(g)[o[14]] == g[14] && Scatter(g)[o[15]] == g[15] && Scatter(g)[o[16]] == g[16];
    assert Scatter(g)[o[17]] == g[17] && Scatter(g)[o[18]] == g[18];
  }

  /** What the symbols of the code length code stand for (section 3.2.7 of RFC 1951). */
  lemma RepeatCodes(have: seq<nat>, sym: nat, e: nat, total: nat)
    requires sym <= 18 && e < Pow2(ExtraBits(sym))
    ensures ExtraBits(sym) == if sym == 16 then 2 else if sym == 17 then 3 else if sym == 18 then 7 else 0
    ensures var times := if sym < 16 then 1 else if sym == 18 then 11 + e else 3 + e;
      var value := if sym < 16 then sym else if sym == 16 && have != [] then have[|have| - 1] else 0;
      RunLengths.ExpandOne(RunLengths.Item(sym, e, ExtraBits(sym)), have, total) ==
      if (sym == 16 && have == []) || (sym >= 16 && |have| + times > total) then RunLengths.BadRepeat
      else RunLengths.Lengths(have + seq(times, _ => value))
  {
    if sym < 16 {
      assert [sym] == seq(1, _ => sym);
    }
  }

  // ---------- literals, lengths and distances ----------

  /** Extra bits of the length code 257 + c, and the shortest length it stands for (section 3.2.5 of RFC 1951). */
  function LengthOf(c: nat): (nat, nat)
    requires c <= 28
  {
    if c < 8 then (0, 3 + c)
    else if c == 28 then (0, 258)
    else
      var extra := c / 4 - 1;
      (extra, 3 + (4 + c % 4) * Pow2(extra))
  }

  /** Extra bits of the distance code c, and the shortest distance it stands for (section 3.2.5 of RFC 1951). */
  function DistanceOf(c: nat): (nat, nat)
    requires c < 30
  {
    if c < 4 then (0, 1 + c)
    else
      var extra := c / 2 - 1;
      (extra, 1 + (2 + c % 2) * Pow2(extra))
  }

  lemma ShortLengths(c: nat)
    requires c < 16
    ensures LEXT[c] == 16 + LengthOf(c).0 && LBASE[c] == LengthOf(c).1
  {
    hide Pow2;
    SmallPowers();
  }

  lemma LongLengths(c: nat)
    requires 16 <= c <= 28
    ensures LEXT[c] == 16 + LengthOf(c).0 && LBASE[c] == LengthOf(c).1
  {
    hide Pow2;
    SmallPowers();
  }

  lemma LengthTable(c: nat)
    requires c <= 28
    ensures LEXT[c] == 16 + LengthOf(c).0 && LBASE[c] == LengthOf(c).1 && LengthOf(c).0 <= 6
  {
    hide Pow2;
    if c < 16 {
      ShortLengths(c);
    } else {
      LongLengths(c);
    }
  }

  lemma ShortDistances(c: nat)
    requires c < 16
    ensures DEXT[c] == 16 + DistanceOf(c).0 && DBASE[c] == DistanceOf(c).1
  {
    hide Pow2;
    SmallPowers();
  }

  lemma LongDistances(c: nat)
    requires 16 <= c < 30
    ensures DEXT[c] == 16 + DistanceOf(c).0 && DBASE[c] == DistanceOf(c).1
  {
    hide Pow2;
    SmallPowers();
  }

  lemma DistanceTable(c: nat)
    requires c < 30
    ensures DEXT[c] == 16 + DistanceOf(c).0 && DBASE[c] == DistanceOf(c).1 && DistanceOf(c).0 <= 13
  {
    hide Pow2;
    if c < 16 {
      ShortDistances(c);
    } else {
      LongDistances(c);
    }
  }

  lemma LengthMode(t: Trees, c: nat)
    requires c <= 28 && LengthOf(c).0 <= 6
    ensures LenMode(t, 16 + LengthOf(c).0, LengthOf(c).1) == LenExt(t, LengthOf(c).1, LengthOf(c).0)
  {
    hide LengthOf;
  }

  /** What a symbol of the first alphabet leads to: a byte, the end of the block, a match length, or an error. */
  function LiteralOrLength(t: Trees, sym: nat): Mode {
    if sym < 256 then Lit(t, sym)
    else if sym == 256 then Type
    else if sym <= 285 then LenExt(t, LengthOf(sym - 257).1, LengthOf(sym - 257).0)
    else Bad
  }

  lemma LiteralsAndLengths(t: Trees, sym: nat, bits: nat)
    requires sym < 288
    ensures var e := EntryOf(Lens, sym, bits); e.bits == bits && LenMode(t, e.op, e.val) == LiteralOrLength(t, sym)
  {
    hide LengthOf, Pow2;
    if 257 <= sym <= 285 {
      LengthTable(sym - 257);
      LengthMode(t, sym - 257);
    }
  }

  /** What a symbol of the second alphabet leads to: a match distance, or an error. */
  function AnyDistance(t: Trees, length: nat, sym: nat): Mode {
    if sym < 30 then DistExt(t, length, DistanceOf(sym).1, DistanceOf(sym).0) else Bad
  }

  lemma Distances(t: Trees, length: nat, sym: nat, bits: nat)
    requires sym < 32
    ensures var e := EntryOf(Dists, sym, bits);
      e.bits == bits && DistMode(t, length, e.op, e.val) == AnyDistance(t, length, sym)
  {
    if sym < 30 {
      DistanceTable(sym);
    }
    hide DistanceOf, Pow2;
  }
}
