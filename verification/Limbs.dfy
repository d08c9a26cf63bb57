/** Numbers as arrays of limbs, least significant limb first (Mbed TLS's bignum_core). */
module Limbs {
  import opened Arithmetic

  /** The limb width in bits; the library is built for 32 or for 64. */
  type Width = w: nat | w == 32 || w == 64 witness 64

  const BIL: Width

  /** The number of values of a limb. */
  function Radix(): (b: nat)
    ensures b == Pow2(BIL) && b >= 256
  {
    Pow2Monotone(8, BIL);
    assert Pow2(8) == 256 by { assert Pow2(0) == 1 && Pow2(4) == 16; }
    Pow2(BIL)
  }

  type Limb = x: int | 0 <= x < Radix() witness 0

  function PowR(n: nat): (p: nat)
    ensures p >= 1
  {
    if n == 0 then 1 else (MulMonotone(PowR(n - 1), 1, Radix()); PowR(n - 1) * Radix())
  }

  function Value(s: seq<Limb>): nat {
    if s == [] then 0
    else
      var n := |s| - 1;
      MulPositive(s[n], PowR(n));
      Value(s[..n]) + s[n] * PowR(n)
  }

  lemma ValueSnoc(s: seq<Limb>, x: Limb)
    ensures Value(s + [x]) == Value(s) + x * PowR(|s|)
  {
    assert (s + [x])[..|s|] == s;
  }

  lemma {:induction false} PowRAdd(m: nat, n: nat)
    ensures PowR(m + n) == PowR(m) * PowR(n)
  {
    if n == 0 {
    } else {
      PowRAdd(m, n - 1);
      MulAssoc(PowR(m), PowR(n - 1), Radix());
    }
  }

  lemma {:induction false} PowRIsPow2(n: nat)
    ensures PowR(n) == Pow2(BIL * n)
  {
    if n == 0 {
    } else {
      PowRIsPow2(n - 1);
      Pow2Add(BIL * (n - 1), BIL);
      hide Pow2;
      assert BIL * n == BIL * (n - 1) + BIL;
    }
  }

  lemma {:induction false} ValueBound(s: seq<Limb>)
    ensures Value(s) < PowR(|s|)
  {
    if s == [] {
    } else {
      var n := |s| - 1;
      var top: int := s[n];
      ValueBound(s[..n]);
      MulMonotone(PowR(n), top + 1, Radix());
      MulDistribute(top, 1, PowR(n));
    }
  }

  lemma {:induction false} ValueAppend(s: seq<Limb>, t: seq<Limb>)
    ensures Value(s + t) == Value(s) + PowR(|s|) * Value(t)
  {
    if t == [] {
      assert s + t == s;
    } else {
      var n := |t| - 1;
      assert s + t == (s + t[..n]) + [t[n]];
      assert t == t[..n] + [t[n]];
      ValueAppend(s, t[..n]);
      ValueSnoc(s + t[..n], t[n]);
      ValueSnoc(t[..n], t[n]);
      PowRAdd(|s|, n);
      AppendTerm(PowR(|s|), Value(t[..n]), t[n], PowR(n));
    }
  }

  lemma AppendTerm(p: int, v: int, x: int, q: int)
    ensures p * (v + x * q) == p * v + x * (p * q)
  {
    MulDistribute(v, x * q, p);
    MulAssoc(x, q, p);
  }

  lemma {:induction false} ValueZeros(s: seq<Limb>)
    requires forall i :: 0 <= i < |s| ==> s[i] == 0
    ensures Value(s) == 0
  {
    if s != [] {
      ValueZeros(s[..|s| - 1]);
    }
  }

  /** The lowest limb is the remainder by the radix. */
  lemma ValueLow(s: seq<Limb>)
    requires |s| > 0
    ensures Value(s) == s[0] + Radix() * Value(s[1..])
  {
    ValueAppend([s[0]], s[1..]);
    assert s == [s[0]] + s[1..];
    ValueSnoc([], s[0]);
    assert [s[0]] == [] + [s[0]];
    assert PowR(1) == Radix() by { assert PowR(0) == 1; }
  }

  // ---------- limb arithmetic, modulo the radix ----------

  function AddL(a: Limb, b: Limb): Limb {
    (a + b) % Radix()
  }

  function SubL(a: Limb, b: Limb): Limb {
    (a - b) % Radix()
  }

  function MulL(a: Limb, b: Limb): Limb {
    (a * b) % Radix()
  }

  /** The complement of all bits. */
  function NotL(a: Limb): Limb {
    var v: int := a;
    Radix() - 1 - v
  }

  function Bit(b: bool): (n: nat)
    ensures n < 2
  {
    if b then 1 else 0
  }

  /** The carry of an addition is seen by comparing the sum with a summand. */
  lemma AddCarry(a: Limb, b: Limb)
    ensures AddL(a, b) + Bit(AddL(a, b) < a) * Radix() == a + b
    ensures AddL(a, b) + Bit(AddL(a, b) < b) * Radix() == a + b
  {
    if a + b < Radix() {
      DivModUnique(a + b, Radix(), 0, a + b);
    } else {
      DivModUnique(a + b, Radix(), 1, a + b - Radix());
    }
  }

  lemma SubBorrow(a: Limb, b: Limb)
    ensures SubL(a, b) - Bit(a < b) * Radix() == a - b
  {
    if a >= b {
      DivModUnique(a - b, Radix(), 0, a - b);
    } else {
      DivModUnique(a - b, Radix(), -1, a - b + Radix());
    }
  }
}
