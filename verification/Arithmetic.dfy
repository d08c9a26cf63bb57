/** Powers of two, division facts and bit reversal used by the other modules. */
module Arithmetic {

  type Byte = x: nat | x < 256

  function Min(a: int, b: int): int {
    if a <= b then a else b
  }

  function Max(a: int, b: int): int {
    if a >= b then a else b
  }

  // ---------- products ----------

  lemma MulAssoc(a: int, b: int, c: int)
    ensures (a * b) * c == a * (b * c)
  {
  }

  lemma MulDistribute(a: int, b: int, c: int)
    ensures (a + b) * c == a * c + b * c
  {
  }

  lemma MulMonotone(c: int, a: int, b: int)
    requires c >= 0 && a <= b
    ensures c * a <= c * b && a * c <= b * c
  {
  }

  lemma MulPositive(a: int, b: int)
    requires a >= 0 && b >= 0
    ensures a * b >= 0
  {
  }

  // ---------- quotients and remainders ----------

  /** A quotient and a remainder in range are the quotient and the remainder. */
  lemma DivModUnique(a: int, n: int, q: int, r: int)
    requires n > 0 && a == q * n + r && 0 <= r < n
    ensures a / n == q && a % n == r
  {
    var q1, r1 := a / n, a % n;
    assert (q - q1) * n == r1 - r;
    if q > q1 {
      MulMonotone(n, 1, q - q1);
    } else if q < q1 {
      MulMonotone(n, q - q1, -1);
    }
  }

  lemma DivMod(x: int, n: int)
    requires n > 0
    ensures x == (x / n) * n + x % n && 0 <= x % n < n
    ensures x >= 0 ==> x / n >= 0
  {
  }

  lemma ModOfSum(a: int, k: int, n: int)
    requires n > 0
    ensures (a + k * n) % n == a % n && (a + k * n) / n == a / n + k
  {
    DivMod(a, n);
    MulDistribute(a / n, k, n);
    DivModUnique(a + k * n, n, a / n + k, a % n);
  }

  lemma DivRange(x: int, n: int, q: int)
    requires n > 0
    ensures q * n <= x <==> q <= x / n
    ensures x < q * n <==> x / n < q
  {
    DivMod(x, n);
    if q <= x / n {
      MulMonotone(n, q, x / n);
    } else {
      MulMonotone(n, x / n + 1, q);
    }
  }

  /** Dividing by a product is dividing twice. */
  lemma DivModProduct(x: nat, a: nat, b: nat)
    requires a > 0 && b > 0 && a * b > 0
    ensures x / (a * b) == (x / a) / b
    ensures x % (a * b) == ((x / a) % b) * a + x % a
  {
    DivMod(x, a);
    var q := x / a;
    DivMod(q, b);
    CombineDigits(x, a, b, q, x % a, q / b, q % b);
    DivModUnique(x, a * b, q / b, (q % b) * a + x % a);
  }

  lemma CombineDigits(x: nat, a: nat, b: nat, q: nat, r: nat, qq: nat, qr: nat)
    requires a > 0 && b > 0
    requires x == q * a + r && q == qq * b + qr && r < a && qr < b
    ensures x == qq * (a * b) + (qr * a + r)
    ensures 0 <= qr * a + r < a * b
  {
    MulDistribute(qq * b, qr, a);
    MulAssoc(qq, b, a);
    MulMonotone(a, qr + 1, b);
    MulPositive(qr, a);
  }

  // ---------- powers of two ----------

  function Pow2(e: nat): (p: nat)
    ensures p >= 1
  {
    if e == 0 then 1 else 2 * Pow2(e - 1)
  }

  lemma SmallestPowers()
    ensures Pow2(0) == 1 && Pow2(1) == 2
  {
  }

  lemma {:induction false} Pow2Add(m: nat, n: nat)
    ensures Pow2(m + n) == Pow2(m) * Pow2(n)
  {
    if m == 0 {
    } else {
      Pow2Add(m - 1, n);
      MulAssoc(2, Pow2(m - 1), Pow2(n));
    }
  }

  lemma Pow2Monotone(m: nat, n: nat)
    requires m <= n
    ensures Pow2(m) <= Pow2(n)
  {
    Pow2Add(m, n - m);
    MulMonotone(Pow2(m), 1, Pow2(n - m));
  }

  /** Splitting off `a + b` low bits is splitting off `a` and then `b`. */
  lemma SplitBits(x: nat, a: nat, b: nat)
    ensures x / Pow2(a + b) == (x / Pow2(a)) / Pow2(b)
    ensures x % Pow2(a + b) == ((x / Pow2(a)) % Pow2(b)) * Pow2(a) + x % Pow2(a)
    ensures (x % Pow2(a + b)) % Pow2(a) == x % Pow2(a)
    ensures (x % Pow2(a + b)) / Pow2(a) == (x / Pow2(a)) % Pow2(b)
  {
    Pow2Add(a, b);
    DivModProduct(x, Pow2(a), Pow2(b));
    var hi := (x / Pow2(a)) % Pow2(b);
    DivModUnique(hi * Pow2(a) + x % Pow2(a), Pow2(a), hi, x % Pow2(a));
  }

  // ---------- bit reversal ----------

  /** The `n` low bits of `x` in reverse order. */
  function Reverse(n: nat, x: nat): (r: nat)
    ensures r < Pow2(n)
  {
    if n == 0 then 0
    else
      var rest := Reverse(n - 1, x / 2);
      if x % 2 == 0 then rest else Pow2(n - 1) + rest
  }

  lemma {:induction false} ReverseZero(n: nat)
    ensures Reverse(n, 0) == 0
  {
    if n == 0 {
    } else {
      ReverseZero(n - 1);
    }
  }

  lemma ReverseStep(n: nat, x: nat)
    requires n > 0
    ensures Reverse(n, x) == Reverse(n - 1, x / 2) + if x % 2 == 0 then 0 else Pow2(n - 1)
  {
  }

  /** Reversing a word sends its low part to the high bits and its high part to the low bits. */
  lemma ReverseSplit(a: nat, b: nat, lo: nat, hi: nat)
    requires lo < Pow2(a)
    ensures hi * Pow2(a) >= 0
    ensures Reverse(a + b, hi * Pow2(a) + lo) == Reverse(a, lo) * Pow2(b) + Reverse(b, hi)
  {
    MulPositive(hi, Pow2(a));
    ReverseParts(a, b, lo, hi, hi * Pow2(a) + lo);
  }

  lemma {:induction false} ReverseParts(a: nat, b: nat, lo: nat, hi: nat, x: nat)
    requires lo < Pow2(a) && x == hi * Pow2(a) + lo
    ensures Reverse(a + b, x) == Reverse(a, lo) * Pow2(b) + Reverse(b, hi)
  {
    hide Pow2, Reverse;
    if a == 0 {
      SmallestPowers();
      ReverseNone(lo);
      assert x == hi;
    } else {
      PowerParts(a, lo, hi, x);
      Pow2Add(a - 1, b);
      ReverseStep(a, lo);
      ReverseStep(a + b, x);
      ReverseParts(a - 1, b, lo / 2, hi, x / 2);
      assert a + b - 1 == a - 1 + b;
      var q, u, w := Pow2(a - 1), Pow2(b), if lo % 2 == 0 then 0 else Pow2(a - 1 + b);
      var bit := if lo % 2 == 0 then 0 else q;
      BitTimes(lo, q, u, bit, w);
      AddParts(Reverse(a + b, x), Reverse(a - 1 + b, x / 2), Reverse(a, lo), Reverse(a - 1, lo / 2), bit, u, w,
          Reverse(b, hi));
    }
  }

  lemma ReverseNone(x: nat)
    ensures Reverse(0, x) == 0
  {
  }

  lemma PowerParts(a: nat, lo: nat, hi: nat, x: nat)
    requires a > 0 && lo < Pow2(a) && x == hi * Pow2(a) + lo
    ensures lo / 2 < Pow2(a - 1) && x / 2 == hi * Pow2(a - 1) + lo / 2 && x % 2 == lo % 2
  {
    var p := hi * Pow2(a - 1);
    MulPositive(hi, Pow2(a - 1));
    MulAssoc(hi, Pow2(a - 1), 2);
    assert hi * Pow2(a) == 2 * p;
    HalfOf(p, lo);
  }

  lemma BitTimes(lo: nat, q: nat, u: nat, bit: nat, w: nat)
    requires bit == (if lo % 2 == 0 then 0 else q) && (lo % 2 == 0 ==> w == 0) && (lo % 2 == 1 ==> w == q * u)
    ensures bit * u == w
  {
  }

  lemma AddParts(whole: nat, sub: nat, part: nat, rest: nat, bit: nat, u: nat, w: nat, r: nat)
    requires whole == sub + w && bit * u == w && sub == rest * u + r && part == rest + bit
    ensures whole == part * u + r
  {
    MulDistribute(rest, bit, u);
  }

  lemma HalfOf(p: nat, x: nat)
    ensures (2 * p + x) / 2 == p + x / 2 && (2 * p + x) % 2 == x % 2
  {
  }

  lemma ReverseBit(b: nat)
    requires b < 2
    ensures Reverse(1, b) == b && Pow2(1) == 2
  {
    assert Reverse(0, b / 2) == 0 && Pow2(0) == 1;
  }

  lemma {:induction false} ReverseInvolution(n: nat, x: nat)
    requires x < Pow2(n)
    ensures Reverse(n, Reverse(n, x)) == x
  {
    if n == 0 {
    } else {
      var lo, hi := Reverse(n - 1, x / 2), x % 2;
      ReverseInvolution(n - 1, x / 2);
      ReverseBit(hi);
      ReverseStep(n, x);
      ReverseSplit(n - 1, 1, lo, hi);
      var p := Pow2(n - 1);
      hide Pow2, Reverse;
      assert n - 1 + 1 == n;
      if hi == 0 {
        assert 0 * p == 0;
      } else {
        assert 1 * p == p;
      }
      DivMod(x, 2);
    }
  }

  /** Only the `n` low bits are reversed. */
  lemma ReverseLow(n: nat, x: nat)
    ensures Reverse(n, x % Pow2(n)) == Reverse(n, x)
  {
    DivMod(x, Pow2(n));
    ReverseSplit(n, 0, x % Pow2(n), x / Pow2(n));
    assert Pow2(0) == 1;
    assert Reverse(n + 0, x) == Reverse(n, x % Pow2(n)) * Pow2(0) + Reverse(0, x / Pow2(n));
  }
}
