/** The residues that Montgomery arithmetic computes with (HAC 14.36). */
module Montgomery {
  import opened Arithmetic
  import opened Limbs

  function Power(b: nat, e: nat): nat {
    if e == 0 then 1 else (MulPositive(b, Power(b, e - 1)); b * Power(b, e - 1))
  }

  lemma {:induction false} PowerAdd(b: nat, m: nat, n: nat)
    ensures Power(b, m + n) == Power(b, m) * Power(b, n)
  {
    if m == 0 {
    } else {
      PowerAdd(b, m - 1, n);
      MulAssoc(b, Power(b, m - 1), Power(b, n));
    }
  }

  /** The Montgomery radix for `n` limbs is PowR(n); this is its inverse modulo an odd `m`. */
  function RInv(m: nat, n: nat): nat {
    Power((m + 1) / 2, BIL * n)
  }

  /** The Montgomery form of `v`. */
  function Mont(v: nat, m: nat, n: nat): nat
    requires m > 0
  {
    MulPositive(v, PowR(n));
    (v * PowR(n)) % m
  }

  /** The number that `x` is the Montgomery form of. */
  function FromMont(x: nat, m: nat, n: nat): nat
    requires m > 0
  {
    MulPositive(x, RInv(m, n));
    (x * RInv(m, n)) % m
  }

  /** The Montgomery product a * b * R^-1 mod m. */
  function MontMul(a: nat, b: nat, m: nat, n: nat): nat
    requires m > 0
  {
    MulPositive(a, b);
    MulPositive(a * b, RInv(m, n));
    (a * b * RInv(m, n)) % m
  }

  // ---------- congruences, each with its witness ----------

  /** `x` and `y` differ by `k` times `m`. */
  ghost predicate Differ(x: int, y: int, k: int, m: nat) {
    x == y + k * m
  }

  lemma DifferMul(x: int, y: int, k: int, z: int, m: nat)
    requires Differ(x, y, k, m)
    ensures Differ(x * z, y * z, k * z, m)
  {
    MulDistribute(y, k * m, z);
    MulAssoc(k, m, z);
    MulAssoc(k, z, m);
  }

  lemma DifferTrans(x: int, y: int, z: int, k: int, l: int, m: nat)
    requires Differ(x, y, k, m) && Differ(y, z, l, m)
    ensures Differ(x, z, k + l, m)
  {
    MulDistribute(k, l, m);
  }

  lemma DifferMod(x: int, m: nat)
    requires m > 0
    ensures Differ(x, x % m, x / m, m) && Differ(x % m, x, -(x / m), m)
  {
    DivMod(x, m);
  }

  lemma SameResidue(x: int, y: int, k: int, m: nat)
    requires m > 0 && Differ(x, y, k, m)
    ensures x % m == y % m
  {
    ModOfSum(y, k, m);
  }

  lemma SmallResidue(x: nat, y: int, k: int, m: nat)
    requires x < m && Differ(x, y, k, m)
    ensures x == y % m
  {
    SameResidue(x, y, k, m);
    DivModUnique(x, m, 0, x);
  }

  // ---------- the radix and its inverse ----------

  /** 2^e and ((m+1)/2)^e multiply to 1 modulo an odd `m`. */
  lemma {:induction false} HalfPower(m: nat, e: nat) returns (k: int)
    requires m % 2 == 1
    ensures Differ(Pow2(e) * Power((m + 1) / 2, e), 1, k, m)
  {
    if e == 0 {
      k := 0;
    } else {
      var h, p := (m + 1) / 2, Power((m + 1) / 2, e - 1);
      var k0 := HalfPower(m, e - 1);
      assert 2 * h == m + 1;
      Regroup(2, Pow2(e - 1), h, p);
      DifferMul(Pow2(e - 1) * p, 1, k0, m + 1, m);
      k := k0 * (m + 1) + 1;
      DifferTrans(Pow2(e) * Power(h, e), m + 1, 1, k0 * (m + 1), 1, m);
    }
  }

  lemma Regroup(a: int, b: int, c: int, d: int)
    ensures (a * b) * (c * d) == (b * d) * (a * c)
  {
    MulAssoc(a, b, c * d);
    MulAssoc(b, c, d);
    MulAssoc(c, b, d);
    MulAssoc(a, c, b * d);
  }

  lemma RadixInverse(m: nat, n: nat) returns (k: int)
    requires m % 2 == 1
    ensures Differ(PowR(n) * RInv(m, n), 1, k, m)
  {
    PowRIsPow2(n);
    k := HalfPower(m, BIL * n);
  }

  /** What is `a * b` after multiplication with the radix is their Montgomery product. */
  lemma ProductIsMontMul(x: nat, a: nat, b: nat, q: int, m: nat, n: nat)
    requires m % 2 == 1 && x < m && Differ(x * PowR(n), a * b, q, m)
    ensures x == MontMul(a, b, m, n)
  {
    hide Power, PowR, Pow2, RInv;
    var r := RInv(m, n);
    var k := RadixInverse(m, n);
    DifferMul(x * PowR(n), a * b, q, r, m);
    MulAssoc(x, PowR(n), r);
    DifferMul(PowR(n) * r, 1, k, x, m);
    DifferTrans(x, (PowR(n) * r) * x, a * b * r, -(k * x), q * r, m);
    SmallResidue(x, a * b * r, -(k * x) + q * r, m);
  }

  /** Taking a residue into Montgomery form and back, and back and forth, changes nothing. */
  lemma MontInverse(x: nat, m: nat, n: nat)
    requires m % 2 == 1 && x < m
    ensures Mont(FromMont(x, m, n), m, n) == x
    ensures FromMont(Mont(x, m, n), m, n) == x
  {
    var r, p := RInv(m, n), PowR(n);
    var k := RadixInverse(m, n);
    Scaled(x, r, p, k, m);
    Scaled(x, p, r, k, m);
  }

  lemma Scaled(x: nat, r: nat, p: nat, k: int, m: nat)
    requires x < m && Differ(p * r, 1, k, m)
    ensures (((x * r) % m) * p) % m == x
  {
    DifferMod(x * r, m);
    DifferMul((x * r) % m, x * r, -((x * r) / m), p, m);
    MulAssoc(x, r, p);
    DifferMul(p * r, 1, k, x, m);
    var y := ((x * r) % m) * p;
    DifferTrans(y, (p * r) * x, x, -((x * r) / m) * p, k * x, m);
    SameResidue(y, x, -((x * r) / m) * p + k * x, m);
    DivModUnique(x, m, 0, x);
  }

  /** Products of residues differ from the products by a multiple of the modulus. */
  lemma FormsDiffer(a: nat, b: nat, x: nat, y: nat, m: nat) returns (k: int)
    requires m > 0 && x == a % m && y == b % m
    ensures Differ(x * y, b * a, k, m)
  {
    DifferMod(a, m);
    DifferMod(b, m);
    DifferMul(x, a, -(a / m), y, m);
    DifferMul(y, b, -(b / m), a, m);
    var k1, k2 := -(a / m) * y, -(b / m) * a;
    DifferTrans(x * y, a * y, b * a, k1, k2, m);
    k := k1 + k2;
  }

  /** The form of the product and the product of the forms differ by a multiple of the modulus. */
  lemma ProductDiffers(a: nat, b: nat, w: nat, p: nat, x: nat, y: nat, z: nat, m: nat) returns (k: int)
    requires m > 0 && x == a % m && y == b % m && z == w % m && w * p == b * a
    ensures Differ(z * p, x * y, k, m)
  {
    var j := FormsDiffer(a, b, x, y, m);
    DifferMod(w, m);
    DifferMul(z, w, -(w / m), p, m);
    assert Differ(b * a, x * y, -j, m);
    DifferTrans(z * p, b * a, x * y, -(w / m) * p, -j, m);
    k := -(w / m) * p - j;
  }

  /** The Montgomery product of Montgomery forms is the Montgomery form of the product. */
  lemma MontMulForms(u: nat, v: nat, m: nat, n: nat)
    requires m % 2 == 1
    ensures u * v >= 0
    ensures MontMul(Mont(u, m, n), Mont(v, m, n), m, n) == Mont(u * v, m, n)
  {
    MulPositive(u, v);
    var p, x, y, z := PowR(n), Mont(u, m, n), Mont(v, m, n), Mont(u * v, m, n);
    Square(u, v, p);
    var k := ProductDiffers(u * p, v * p, u * v * p, p, x, y, z, m);
    ProductIsMontMul(z, x, y, k, m, n);
  }

  lemma Square(u: int, v: int, p: int)
    ensures (u * v * p) * p == (v * p) * (u * p)
  {
    Regroup(v, p, u, p);
    MulAssoc(u * v, p, p);
    MulAssoc(v, u, p * p);
    MulAssoc(p, p, v * u);
  }

  /** One times R^2 is the Montgomery form of 1. */
  lemma MontOne(rr: nat, m: nat, n: nat)
    requires m % 2 == 1 && PowR(n) * PowR(n) >= 0
    requires rr == (PowR(n) * PowR(n)) % m
    ensures MontMul(1, rr, m, n) == Mont(1, m, n)
  {
    var p, z := PowR(n), Mont(1, m, n);
    DifferMod(p, m);
    DifferMul(z, p, -(p / m), p, m);
    DifferMod(p * p, m);
    DifferTrans(z * p, p * p, rr, -(p / m) * p, (p * p) / m, m);
    ProductIsMontMul(z, 1, rr, -(p / m) * p + (p * p) / m, m, n);
  }
}
