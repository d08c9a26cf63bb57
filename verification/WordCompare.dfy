/**
  Comparing eight bytes at once: the lowest bit that differs tells the first byte that differs (longest_match in zlib's
  deflate.c).
 */
module WordCompare {
  import opened Arithmetic
  import opened Bits

  /** The word that bytes make in memory, lowest byte first. */
  function WordOf(s: seq<Byte>): nat {
    if s == [] then 0 else s[0] + 256 * WordOf(s[1..])
  }

  /** The number of zero bits below the lowest one bit. */
  function TrailingZeros(x: nat): nat
    requires x > 0
  {
    if x % 2 == 1 then 0 else 1 + TrailingZeros(x / 2)
  }

  /** How many bytes are equal before the first difference. */
  function EqualBytes(s: seq<Byte>, t: seq<Byte>): (n: nat)
    requires |s| == |t|
    ensures n <= |s| && s[..n] == t[..n] && (n < |s| ==> s[n] != t[n])
  {
    if s == [] || s[0] != t[0] then 0
    else
      var n := EqualBytes(s[1..], t[1..]);
      assert s[..1 + n] == [s[0]] + s[1..][..n] && t[..1 + n] == [t[0]] + t[1..][..n];
      1 + n
  }

  /** Low and high bits are combined separately. */
  lemma {:induction false} XorSplit(a: nat, b: nat, p: nat, q: nat, k: nat, m: nat)
    requires a < Pow2(k) && b < Pow2(k)
    ensures p * Pow2(k) >= 0 && q * Pow2(k) >= 0
    ensures Xor(a + p * Pow2(k), b + q * Pow2(k), k + m) == Xor(a, b, k) + Xor(p, q, m) * Pow2(k)
  {
    MulPositive(p, Pow2(k));
    MulPositive(q, Pow2(k));
    if k == 0 {
      assert a + p * Pow2(0) == p && b + q * Pow2(0) == q;
    } else {
      ShiftDouble(p, k);
      ShiftDouble(q, k);
      ShiftDouble(Xor(p, q, m), k);
      HalfAbove(a, p * Pow2(k - 1), a + p * Pow2(k));
      HalfAbove(b, q * Pow2(k - 1), b + q * Pow2(k));
      XorSplit(a / 2, b / 2, p, q, k - 1, m);
      assert k - 1 + m == k + m - 1;
    }
  }

  lemma {:induction false} XorPositive(a: nat, b: nat, n: nat)
    requires a < Pow2(n) && b < Pow2(n)
    ensures Xor(a, b, n) < Pow2(n)
    ensures Xor(a, b, n) == 0 <==> a == b
  {
    if n > 0 {
      XorPositive(a / 2, b / 2, n - 1);
    }
  }

  lemma {:induction false} ZerosBelow(x: nat, k: nat)
    requires 0 < x < Pow2(k)
    ensures TrailingZeros(x) < k
  {
    if x % 2 == 0 {
      ZerosBelow(x / 2, k - 1);
    }
  }

  /** Adding higher bits does not change the lowest one bit. */
  lemma {:induction false} ZerosLow(x: nat, h: nat, k: nat)
    requires 0 < x < Pow2(k)
    ensures h * Pow2(k) >= 0 && TrailingZeros(x + h * Pow2(k)) == TrailingZeros(x)
  {
    MulPositive(h, Pow2(k));
    ShiftDouble(h, k);
    HalfAbove(x, h * Pow2(k - 1), x + h * Pow2(k));
    if x % 2 == 0 {
      ZerosLow(x / 2, h, k - 1);
    }
  }

  lemma {:induction false} ZerosShift(h: nat, k: nat)
    requires h > 0
    ensures h * Pow2(k) > 0 && TrailingZeros(h * Pow2(k)) == k + TrailingZeros(h)
  {
    if k == 0 {
      assert h * Pow2(0) == h;
    } else {
      ShiftDouble(h, k);
      ZerosShift(h, k - 1);
    }
  }

  lemma EightBits()
    ensures Pow2(8) == 256
  {
    assert Pow2(4) == 16;
    Pow2Add(4, 4);
  }

  lemma {:induction false} WordBound(s: seq<Byte>)
    ensures WordOf(s) < Pow2(8 * |s|)
  {
    if s != [] {
      WordBound(s[1..]);
      EightBits();
      Pow2Add(8, 8 * (|s| - 1));
      assert 8 + 8 * (|s| - 1) == 8 * |s|;
      MulMonotone(256, WordOf(s[1..]) + 1, Pow2(8 * (|s| - 1)));
    }
  }

  /** The combination of two words of bytes, first byte apart. */
  lemma XorFirst(a: Byte, b: Byte, p: nat, q: nat, n: nat)
    ensures Xor(a + 256 * p, b + 256 * q, 8 + n) == Xor(a, b, 8) + 256 * Xor(p, q, n)
    ensures Xor(a, b, 8) < 256 && (Xor(a, b, 8) == 0 <==> a == b)
  {
    hide Pow2;
    EightBits();
    XorSplit(a, b, p, q, 8, n);
    XorPositive(a, b, 8);
  }

  lemma NoBits()
    ensures Xor(0, 0, 0) == 0
  {
  }

  /** The lowest one bit of a number whose low byte is `x`. */
  lemma FirstByte(x: nat, h: nat)
    requires x < 256
    ensures x > 0 ==> TrailingZeros(x + 256 * h) / 8 == 0
    ensures x == 0 && h > 0 ==> TrailingZeros(x + 256 * h) / 8 == 1 + TrailingZeros(h) / 8
  {
    hide TrailingZeros, Pow2;
    EightBits();
    if x > 0 {
      ZerosLow(x, h, 8);
      ZerosBelow(x, 8);
    } else if h > 0 {
      ZerosShift(h, 8);
    }
  }

  /** The words differ exactly when the bytes do, and the lowest differing bit is in the first differing byte. */
  lemma {:induction false} FirstDifference(s: seq<Byte>, t: seq<Byte>)
    requires |s| == |t|
    ensures Xor(WordOf(s), WordOf(t), 8 * |s|) == 0 <==> s == t
    ensures s != t ==> TrailingZeros(Xor(WordOf(s), WordOf(t), 8 * |s|)) / 8 == EqualBytes(s, t)
  {
    hide Pow2, Xor, TrailingZeros;
    if s == [] {
      NoBits();
    } else {
      var a, b, p, q, n := s[0], t[0], WordOf(s[1..]), WordOf(t[1..]), 8 * (|s| - 1);
      FirstDifference(s[1..], t[1..]);
      assert 8 + n == 8 * |s| && s == [a] + s[1..] && t == [b] + t[1..];
      XorFirst(a, b, p, q, n);
      EightBits();
      FirstByte(Xor(a, b, 8), Xor(p, q, n));
    }
  }
}
