/**
  What the checksum is: the remainder of the message's polynomial, whose divisor zlib's crc32.c names (x^32 + x^26 +
  x^23 + ... + x + 1).
 */
module CrcRemainder {
  import opened Crc

  /** A polynomial over GF(2): the exponents of its terms. */
  type Poly = set<nat>

  const GENERATOR: Poly := {32, 26, 23, 22, 16, 12, 11, 10, 8, 7, 5, 4, 2, 1, 0}

  function Plus(a: Poly, b: Poly): Poly {
    (a - b) + (b - a)
  }

  function TimesX(a: Poly): Poly {
    set k | k in a :: k + 1
  }

  function If(b: bool, p: Poly): Poly {
    if b then p else {}
  }

  /** A polynomial, its highest coefficient first, times the generator. */
  function Multiple(q: seq<bool>): Poly {
    if q == [] then {} else Plus(TimesX(Multiple(q[..|q| - 1])), If(q[|q| - 1], GENERATOR))
  }

  lemma TimesXHas(a: Poly, k: nat)
    ensures k in TimesX(a) <==> k > 0 && k - 1 in a
  {
    if k > 0 && k - 1 in a {
      var j: nat := k - 1;
      assert j in a && j + 1 == k;
    }
  }

  lemma TimesXPlus(a: Poly, b: Poly)
    ensures TimesX(Plus(a, b)) == Plus(TimesX(a), TimesX(b))
  {
    forall k: nat
      ensures k in TimesX(Plus(a, b)) <==> k in Plus(TimesX(a), TimesX(b))
    {
      TimesXHas(Plus(a, b), k);
      TimesXHas(a, k);
      TimesXHas(b, k);
    }
  }

  lemma PlusSwap(a: Poly, r: Poly, b: Poly, s: Poly, g: Poly)
    requires Plus(s, g) == Plus(r, b)
    ensures Plus(Plus(a, r), b) == Plus(Plus(a, g), s)
  {
    forall k: nat
      ensures k in Plus(Plus(a, r), b) <==> k in Plus(Plus(a, g), s)
    {
      assert k in Plus(s, g) <==> k in Plus(r, b);
    }
  }

  lemma MultipleHas(q: seq<bool>, k: nat)
    requires q != [] && k >= 32
    ensures k in Multiple(q) <==> (k - 1 in Multiple(q[..|q| - 1])) != (k == 32 && q[|q| - 1])
  {
    hide Multiple;
    assert Multiple(q) == Plus(TimesX(Multiple(q[..|q| - 1])), If(q[|q| - 1], GENERATOR)) by {
      MultipleIs(q);
    }
    TimesXHas(Multiple(q[..|q| - 1]), k);
  }

  lemma MultipleIs(q: seq<bool>)
    requires q != []
    ensures Multiple(q) == Plus(TimesX(Multiple(q[..|q| - 1])), If(q[|q| - 1], GENERATOR))
  {
  }

  /** Different multiples differ in terms that no remainder has. */
  lemma {:induction false} SameMultiple(q: seq<bool>, r: seq<bool>)
    requires |q| == |r| && forall k: nat :: k >= 32 ==> (k in Multiple(q) <==> k in Multiple(r))
    ensures q == r
  {
    hide Multiple;
    if q != [] {
      var q', r' := q[..|q| - 1], r[..|r| - 1];
      forall k: nat | k >= 32
        ensures k in Multiple(q') <==> k in Multiple(r')
      {
        MultipleHas(q, k + 1);
        MultipleHas(r, k + 1);
      }
      SameMultiple(q', r');
      MultipleHas(q, 32);
      MultipleHas(r, 32);
      assert q == q' + [q[|q| - 1]] && r == r' + [r[|r| - 1]];
    }
  }

  predicate Below32(a: Poly) {
    forall k :: k in a ==> k < 32
  }

  /** There is only one remainder below x^32. */
  lemma OneRemainder(q: seq<bool>, r: seq<bool>, a: Poly, b: Poly)
    requires |q| == |r| && Below32(a) && Below32(b) && Plus(Multiple(q), a) == Plus(Multiple(r), b)
    ensures a == b
  {
    hide Multiple;
    forall k: nat | k >= 32
      ensures k in Multiple(q) <==> k in Multiple(r)
    {
      assert k !in a && k !in b;
      assert k in Plus(Multiple(q), a) <==> k in Plus(Multiple(r), b);
    }
    SameMultiple(q, r);
    forall k: nat
      ensures k in a <==> k in b
    {
      assert k in Plus(Multiple(q), a) <==> k in Plus(Multiple(r), b);
    }
  }

  // ---------- the register as a polynomial ----------

  function Halves(c: Reg, n: nat): Reg {
    if n == 0 then c else Half(Halves(c, n - 1))
  }

  /** The coefficient of x^k is bit 31 - k. */
  predicate Has(c: Reg, k: nat) {
    k < 32 && Odd(Halves(c, 31 - k))
  }

  function PolyOf(c: Reg): Poly {
    set k: nat | k < 32 && Has(c, k)
  }

  lemma {:induction false} HalvesLinear(a: Reg, b: Reg, n: nat)
    ensures Halves(X(a, b), n) == X(Halves(a, n), Halves(b, n))
  {
    hide X, Half;
    if n > 0 {
      HalvesLinear(a, b, n - 1);
      HalfLinear(Halves(a, n - 1), Halves(b, n - 1));
    }
  }

  lemma {:induction false} HalvesAdd(c: Reg, m: nat, n: nat)
    ensures Halves(c, m + n) == Halves(Halves(c, m), n)
  {
    hide Half;
    if n > 0 {
      HalvesAdd(c, m, n - 1);
    }
  }

  lemma HalfMonotone(a: Reg, b: Reg)
    requires a.v <= b.v
    ensures Half(a).v <= Half(b).v
  {
  }

  lemma {:induction false} HalvesAtMost(c: Reg, n: nat)
    ensures Halves(c, n).v <= Halves(ONES, n).v
  {
    hide Half;
    if n > 0 {
      HalvesAtMost(c, n - 1);
      HalfMonotone(Halves(c, n - 1), Halves(ONES, n - 1));
    }
  }

  lemma OnesEnd()
    ensures Halves(ONES, 32) == ZERO
  {
    assert Halves(ONES, 1) == Reg(0x7FFFFFFF) && Halves(ONES, 2) == Reg(0x3FFFFFFF);
    assert Halves(ONES, 3) == Reg(0x1FFFFFFF) && Halves(ONES, 4) == Reg(0xFFFFFFF);
    assert Halves(ONES, 5) == Reg(0x7FFFFFF) && Halves(ONES, 6) == Reg(0x3FFFFFF);
    assert Halves(ONES, 7) == Reg(0x1FFFFFF) && Halves(ONES, 8) == Reg(0xFFFFFF);
    assert Halves(ONES, 9) == Reg(0x7FFFFF) && Halves(ONES, 10) == Reg(0x3FFFFF);
    assert Halves(ONES, 11) == Reg(0x1FFFFF) && Halves(ONES, 12) == Reg(0xFFFFF);
    assert Halves(ONES, 13) == Reg(0x7FFFF) && Halves(ONES, 14) == Reg(0x3FFFF);
    assert Halves(ONES, 15) == Reg(0x1FFFF) && Halves(ONES, 16) == Reg(0xFFFF);
    assert Halves(ONES, 17) == Reg(0x7FFF) && Halves(ONES, 18) == Reg(0x3FFF);
    assert Halves(ONES, 19) == Reg(0x1FFF) && Halves(ONES, 20) == Reg(0xFFF);
    assert Halves(ONES, 21) == Reg(0x7FF) && Halves(ONES, 22) == Reg(0x3FF);
    assert Halves(ONES, 23) == Reg(0x1FF) && Halves(ONES, 24) == Reg(0xFF);
    assert Halves(ONES, 25) == Reg(0x7F) && Halves(ONES, 26) == Reg(0x3F);
    assert Halves(ONES, 27) == Reg(0x1F) && Halves(ONES, 28) == Reg(0xF);
    assert Halves(ONES, 29) == Reg(0x7) && Halves(ONES, 30) == Reg(0x3);
    assert Halves(ONES, 31) == Reg(0x1) && Halves(ONES, 32) == Reg(0x0);
  }

  /** No bit is left after 32 shifts. */
  lemma HalvesEnd(c: Reg)
    ensures Halves(c, 32) == ZERO
  {
    hide Halves;
    HalvesAtMost(c, 32);
    OnesEnd();
  }

  lemma PlusHas(a: Reg, b: Reg, k: nat)
    requires k < 32
    ensures Has(X(a, b), k) <==> Has(a, k) != Has(b, k)
  {
    hide X, Half, Odd, Halves;
    HalvesLinear(a, b, 31 - k);
    OddLinear(Halves(a, 31 - k), Halves(b, 31 - k));
  }

  lemma ZeroOdd()
    ensures !Odd(ZERO)
  {
  }

  lemma HalfHas(c: Reg, k: nat)
    requires k < 32
    ensures Has(Half(c), k) <==> k > 0 && Has(c, k - 1)
  {
    hide Half, Odd;
    HalvesAdd(c, 1, 31 - k);
    assert Halves(c, 1) == Half(Halves(c, 0));
    if k == 0 {
      HalvesEnd(c);
      ZeroOdd();
    }
  }

  lemma {:induction false} ZeroHas(n: nat)
    ensures !Odd(Halves(ZERO, n)) && Halves(ZERO, n) == ZERO
  {
    if n > 0 {
      ZeroHas(n - 1);
    }
  }

  lemma {:induction false} LowBitHas(b: bool, k: nat)
    requires k < 32
    ensures Has(LowBit(b), k) <==> b && k == 31
  {
    if k < 31 {
      HalvesAdd(LowBit(b), 1, 30 - k);
      assert Halves(LowBit(b), 1) == Half(LowBit(b)) == ZERO;
      ZeroHas(30 - k);
    }
  }

  /** The register's polynomial has the terms of the generator but the highest. */
  lemma GeneratorHas(k: nat)
    requires k < 32
    ensures Has(Reg(POLY), k) <==> k in GENERATOR
  {
    var p := Reg(POLY);
    assert Halves(p, 1) == Reg(0x76DC4190) && Halves(p, 2) == Reg(0x3B6E20C8);
    assert Halves(p, 3) == Reg(0x1DB71064) && Halves(p, 4) == Reg(0xEDB8832);
    assert Halves(p, 5) == Reg(0x76DC419) && Halves(p, 6) == Reg(0x3B6E20C);
    assert Halves(p, 7) == Reg(0x1DB7106) && Halves(p, 8) == Reg(0xEDB883);
    assert Halves(p, 9) == Reg(0x76DC41) && Halves(p, 10) == Reg(0x3B6E20);
    assert Halves(p, 11) == Reg(0x1DB710) && Halves(p, 12) == Reg(0xEDB88);
    assert Halves(p, 13) == Reg(0x76DC4) && Halves(p, 14) == Reg(0x3B6E2);
    assert Halves(p, 15) == Reg(0x1DB71) && Halves(p, 16) == Reg(0xEDB8);
    assert Halves(p, 17) == Reg(0x76DC) && Halves(p, 18) == Reg(0x3B6E);
    assert Halves(p, 19) == Reg(0x1DB7) && Halves(p, 20) == Reg(0xEDB);
    assert Halves(p, 21) == Reg(0x76D) && Halves(p, 22) == Reg(0x3B6);
    assert Halves(p, 23) == Reg(0x1DB) && Halves(p, 24) == Reg(0xED);
    assert Halves(p, 25) == Reg(0x76) && Halves(p, 26) == Reg(0x3B);
    assert Halves(p, 27) == Reg(0x1D) && Halves(p, 28) == Reg(0xE);
    assert Halves(p, 29) == Reg(0x7) && Halves(p, 30) == Reg(0x3);
    assert Halves(p, 31) == Reg(0x1);
  }

  lemma IfHas(b: bool, k: nat)
    requires k < 32
    ensures Has(PolyIf(b), k) <==> b && k in GENERATOR
  {
    hide Has;
    if b {
      GeneratorHas(k);
    } else {
      ZeroHasNot(k);
    }
  }

  lemma ZeroHasNot(k: nat)
    ensures !Has(ZERO, k)
  {
    if k < 32 {
      ZeroHas(31 - k);
    }
  }

  /** Whether a further bit makes the register exceed the generator's degree. */
  predicate Carries(c: Reg, b: bool) {
    Has(c, 31) != b
  }

  lemma CarryIsOdd(c: Reg, b: bool)
    ensures Odd(X(c, LowBit(b))) <==> Carries(c, b)
  {
    assert Halves(c, 0) == c;
  }

  lemma BitHas(c: Reg, b: bool, k: nat)
    requires k < 32
    ensures (Has(Bit(c, b), k) != (Carries(c, b) && k in GENERATOR)) <==> k > 0 && Has(c, k - 1)
  {
    hide Has, X, Step, LowBit, PolyIf, Half, Odd, Carries;
    var s := X(c, LowBit(b));
    StepIs(s);
    CarryIsOdd(c, b);
    PlusHas(PolyIf(Odd(s)), Half(s), k);
    IfHas(Odd(s), k);
    HalfHas(s, k);
    if k > 0 {
      PlusHas(c, LowBit(b), k - 1);
      LowBitHas(b, k - 1);
    }
  }

  /** One bit: the register times x, the bit times x^32, and the generator if that is needed to stay below x^32. */
  lemma BitDivides(c: Reg, b: bool)
    ensures Plus(PolyOf(Bit(c, b)), If(Carries(c, b), GENERATOR)) == Plus(TimesX(PolyOf(c)), If(b, {32}))
  {
    hide Bit, Has, Carries;
    forall k: nat
      ensures k in Plus(PolyOf(Bit(c, b)), If(Carries(c, b), GENERATOR)) <==>
              k in Plus(TimesX(PolyOf(c)), If(b, {32}))
    {
      TimesXHas(PolyOf(c), k);
      if k < 32 {
        BitHas(c, b, k);
      } else if k == 32 {
        CarriesIs(c, b);
      }
    }
  }

  lemma CarriesIs(c: Reg, b: bool)
    ensures Carries(c, b) <==> Has(c, 31) != b
  {
  }

  // ---------- whole messages ----------

  /** The message's polynomial times x^32, after the start value times x to the number of bits. */
  function Dividend(c: Poly, bits: seq<bool>): Poly {
    if bits == [] then c else Plus(TimesX(Dividend(c, bits[..|bits| - 1])), If(bits[|bits| - 1], {32}))
  }

  function Fold(c: Reg, bits: seq<bool>): Reg {
    if bits == [] then c else Bit(Fold(c, bits[..|bits| - 1]), bits[|bits| - 1])
  }

  /** The register after some bits is what is left of the dividend behind a multiple of the generator. */
  lemma {:induction false} FoldIsRemainder(c: Reg, bits: seq<bool>) returns (q: seq<bool>)
    ensures |q| == |bits| && Plus(Multiple(q), PolyOf(Fold(c, bits))) == Dividend(PolyOf(c), bits)
  {
    hide Bit, PolyOf, Plus, TimesX, Carries;
    if bits == [] {
      q := [];
      NothingTimes(PolyOf(c));
    } else {
      var front, b := bits[..|bits| - 1], bits[|bits| - 1];
      var r := FoldIsRemainder(c, front);
      var f := Fold(c, front);
      var o := Carries(f, b);
      q := r + [o];
      assert q[..|q| - 1] == r;
      BitDivides(f, b);
      TimesXPlus(Multiple(r), PolyOf(f));
      PlusSwap(TimesX(Multiple(r)), TimesX(PolyOf(f)), If(b, {32}), PolyOf(Bit(f, b)), If(o, GENERATOR));
    }
  }

  lemma NothingTimes(p: Poly)
    ensures Plus({}, p) == p
  {
  }

  function ByteBits(b: bv8): seq<bool> {
    [Bit0(b), Bit0(b >> 1), Bit0(b >> 2), Bit0(b >> 3), Bit0(b >> 4), Bit0(b >> 5), Bit0(b >> 6), Bit0(b >> 7)]
  }

  /** The bits of the message, each byte's lowest first. */
  function MessageBits(data: seq<bv8>): seq<bool> {
    if data == [] then [] else MessageBits(data[..|data| - 1]) + ByteBits(data[|data| - 1])
  }

  lemma FoldOne(c: Reg, bits: seq<bool>, b: bool)
    ensures Fold(c, bits + [b]) == Bit(Fold(c, bits), b)
  {
    assert (bits + [b])[..|bits|] == bits;
  }

  lemma FoldEight(c: Reg, s: seq<bool>, b: bv8)
    ensures Fold(c, s + ByteBits(b)) == EightBits(Fold(c, s), b)
  {
    hide Fold, Bit, Bit0;
    var t := ByteBits(b);
    FoldOne(c, s, t[0]);
    FoldOne(c, s + t[..1], t[1]);
    FoldOne(c, s + t[..2], t[2]);
    FoldOne(c, s + t[..3], t[3]);
    FoldOne(c, s + t[..4], t[4]);
    FoldOne(c, s + t[..5], t[5]);
    FoldOne(c, s + t[..6], t[6]);
    FoldOne(c, s + t[..7], t[7]);
    forall k | 0 <= k < 8
      ensures s + t[..k] + [t[k]] == s + t[..k + 1]
    {
    }
    assert s + t[..0] == s && t[..8] == t;
  }

  lemma {:induction false} FoldIsUpdate(c: Reg, data: seq<bv8>)
    ensures Fold(c, MessageBits(data)) == UpdateBits(c, data)
  {
    hide EightBits, ByteBits;
    if data != [] {
      FoldIsUpdate(c, data[..|data| - 1]);
      FoldEight(c, MessageBits(data[..|data| - 1]), data[|data| - 1]);
    }
  }

  lemma {:induction false} MessageLength(data: seq<bv8>)
    ensures |MessageBits(data)| == 8 * |data|
  {
    if data != [] {
      MessageLength(data[..|data| - 1]);
    }
  }

  /** The inverted checksum is the remainder, when the register starts with all coefficients one. */
  lemma ChecksumIsRemainder(data: seq<bv8>) returns (q: seq<bool>)
    ensures |q| == 8 * |data| && Below32(PolyOf(X(Crc32(data), ONES)))
    ensures Plus(Multiple(q), PolyOf(X(Crc32(data), ONES))) == Dividend(PolyOf(ONES), MessageBits(data))
  {
    hide Step, X, Fold, Multiple, Dividend, Update, UpdateBits, Plus, MessageBits, Has;
    q := FoldIsRemainder(ONES, MessageBits(data));
    MessageLength(data);
    FoldIsUpdate(ONES, data);
    UpdateIsBits(ONES, data);
    var u := Update(ONES, data);
    XAssoc(u, ONES, ONES);
    XSelf(ONES);
    XZero(u);
  }
}
