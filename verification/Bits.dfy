/** Sequences of bits, lowest bit first, as deflate sends them (section 3.1.1 of RFC 1951). */
module Bits {
  import opened Arithmetic

  /** The `n` low bits of `v`. */
  function ToBits(v: nat, n: nat): (s: seq<bool>)
    ensures |s| == n
  {
    if n == 0 then [] else [v % 2 == 1] + ToBits(v / 2, n - 1)
  }

  /** The number that a sequence of bits stands for. */
  function FromBits(s: seq<bool>): (v: nat)
    ensures v < Pow2(|s|)
  {
    if s == [] then 0 else (if s[0] then 1 else 0) + 2 * FromBits(s[1..])
  }

  /** The bits of a sequence of bytes. */
  function BytesToBits(b: seq<nat>): (s: seq<bool>)
    ensures |s| == 8 * |b|
  {
    if b == [] then [] else BytesToBits(b[..|b| - 1]) + ToBits(b[|b| - 1], 8)
  }

  lemma {:induction false} FromTo(v: nat, n: nat)
    requires v < Pow2(n)
    ensures FromBits(ToBits(v, n)) == v
  {
    if n > 0 {
      FromTo(v / 2, n - 1);
      assert ToBits(v, n)[1..] == ToBits(v / 2, n - 1);
    }
  }

  lemma {:induction false} ToFrom(s: seq<bool>)
    ensures ToBits(FromBits(s), |s|) == s
  {
    if s != [] {
      ToFrom(s[1..]);
      assert s == [s[0]] + s[1..];
    }
  }

  lemma ShiftDouble(x: nat, n: nat)
    requires n >= 1
    ensures x * Pow2(n) == 2 * (x * Pow2(n - 1)) && x * Pow2(n - 1) >= 0
  {
    MulPositive(x, Pow2(n - 1));
    MulAssoc(x, Pow2(n - 1), 2);
  }

  /** A number put above the `m` bits of another one. */
  lemma {:induction false} ToBitsAbove(lo: nat, hi: nat, m: nat, n: nat)
    requires lo < Pow2(m)
    ensures hi * Pow2(m) >= 0
    ensures ToBits(lo + hi * Pow2(m), m + n) == ToBits(lo, m) + ToBits(hi, n)
  {
    MulPositive(hi, Pow2(m));
    if m == 0 {
      assert lo + hi * Pow2(0) == hi;
    } else {
      ShiftDouble(hi, m);
      ToBitsAbove(lo / 2, hi, m - 1, n);
      HalfAbove(lo, hi * Pow2(m - 1), lo + hi * Pow2(m));
      assert m + n - 1 == m - 1 + n;
      assert [lo % 2 == 1] + (ToBits(lo / 2, m - 1) + ToBits(hi, n)) == ToBits(lo, m) + ToBits(hi, n);
    }
  }

  lemma HalfAbove(lo: nat, p: nat, v: nat)
    requires v == lo + 2 * p
    ensures v % 2 == lo % 2 && v / 2 == lo / 2 + p
  {
  }

  /** Only the `n` low bits are taken. */
  lemma ToBitsLow(v: nat, n: nat)
    ensures ToBits(v % Pow2(n), n) == ToBits(v, n)
  {
    DivMod(v, Pow2(n));
    ToBitsAbove(v % Pow2(n), v / Pow2(n), n, 0);
  }

  lemma {:induction false} ZeroBits(n: nat)
    ensures ToBits(0, n) == seq(n, _ => false)
  {
    if n > 0 {
      ZeroBits(n - 1);
    }
  }

  lemma {:induction false} FromBitsAppend(s: seq<bool>, t: seq<bool>)
    ensures FromBits(s + t) == FromBits(s) + FromBits(t) * Pow2(|s|)
  {
    if s == [] {
      assert s + t == t;
    } else {
      hide Pow2;
      FromBitsAppend(s[1..], t);
      var x := FromBits(t) * Pow2(|s| - 1);
      assert |s[1..]| == |s| - 1 && (s + t)[1..] == s[1..] + t && (s + t)[0] == s[0];
      ShiftDouble(FromBits(t), |s|);
      assert FromBits(s[1..] + t) == FromBits(s[1..]) + x;
    }
  }

  /** The low bits of a number are a prefix of its bits. */
  lemma FromBitsPrefix(s: seq<bool>, n: nat)
    requires n <= |s|
    ensures FromBits(s) % Pow2(n) == FromBits(s[..n])
    ensures FromBits(s) / Pow2(n) == FromBits(s[n..])
  {
    hide FromBits, Pow2;
    FromBitsAppend(s[..n], s[n..]);
    assert s == s[..n] + s[n..];
    DivModUnique(FromBits(s), Pow2(n), FromBits(s[n..]), FromBits(s[..n]));
  }

  lemma BytesToBitsAppend(b: seq<nat>, x: nat)
    ensures BytesToBits(b + [x]) == BytesToBits(b) + ToBits(x, 8)
  {
    assert (b + [x])[..|b|] == b;
  }

  // ---------- exclusive or ----------

  /** The bitwise exclusive or of two numbers of `n` bits. */
  function Xor(a: nat, b: nat, n: nat): nat {
    if n == 0 then 0 else (a % 2 + b % 2) % 2 + 2 * Xor(a / 2, b / 2, n - 1)
  }

  /** Numbers without common bits: exclusive or is addition, cut to `n` bits. */
  lemma {:induction false} XorIsSum(a: nat, c: nat, k: nat, n: nat)
    requires a < Pow2(k) && k <= n
    ensures c * Pow2(k) >= 0
    ensures Xor(a, c * Pow2(k), n) == (a + c * Pow2(k)) % Pow2(n)
  {
    MulPositive(c, Pow2(k));
    if n == 0 {
    } else if k == 0 {
      XorZero(c, n);
      assert Pow2(0) == 1 && a == 0;
    } else {
      ShiftDouble(c, k);
      XorIsSum(a / 2, c, k - 1, n - 1);
      XorHalves(a, c * Pow2(k), c * Pow2(k - 1), n);
    }
  }

  lemma XorHalves(a: nat, b: nat, p: nat, n: nat)
    requires n >= 1 && b == 2 * p && Xor(a / 2, p, n - 1) == (a / 2 + p) % Pow2(n - 1)
    ensures Xor(a, b, n) == (a + b) % Pow2(n)
  {
    hide Pow2;
    HalfAbove(a, p, a + b);
    HalfMod(a + b, a / 2 + p, n);
    assert b / 2 == p && b % 2 == 0;
    assert (a % 2 + b % 2) % 2 == a % 2;
  }

  lemma HalfMod(v: nat, h: nat, n: nat)
    requires n >= 1 && h == v / 2
    ensures v % Pow2(n) == v % 2 + 2 * (h % Pow2(n - 1))
  {
    DivModProduct(v, 2, Pow2(n - 1));
  }

  lemma {:induction false} XorZero(b: nat, n: nat)
    ensures Xor(0, b, n) == b % Pow2(n)
  {
    if n == 0 {
      assert b % Pow2(0) == 0;
    } else {
      hide Pow2;
      XorZero(b / 2, n - 1);
      HalfMod(b, b / 2, n);
    }
  }
}
