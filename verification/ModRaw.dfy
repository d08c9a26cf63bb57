/** Into Montgomery form and out of it again (Mbed TLS's bignum_mod_raw.c). */
module ModRaw {
  import opened Arithmetic
  import opened Limbs
  import opened Montgomery
  import opened BignumCore
  import opened Montmul
  import opened ExpMod

  /** Numbers with the same residue have the same Montgomery form. */
  lemma MontOfResidue(v: nat, m: nat, n: nat)
    requires m > 0
    ensures Mont(v % m, m, n) == Mont(v, m, n)
  {
    DifferMod(v, m);
    DifferMul(v % m, v, -(v / m), PowR(n), m);
    SameResidue((v % m) * PowR(n), v * PowR(n), -(v / m) * PowR(n), m);
  }

  /** Out of the Montgomery form of any number comes its residue. */
  lemma Unmont(v: nat, m: nat, n: nat)
    requires m % 2 == 1
    ensures FromMont(Mont(v, m, n), m, n) == v % m
  {
    MontOfResidue(v, m, n);
    MontInverse(v % m, m, n);
  }

  lemma {:induction false} PowerDiffers(b: nat, e: nat, m: nat) returns (k: int)
    requires m > 0
    ensures Differ(Power(b % m, e), Power(b, e), k, m)
  {
    if e == 0 {
      k := 0;
    } else {
      var r, p, q := b % m, Power(b % m, e - 1), Power(b, e - 1);
      var j := PowerDiffers(b, e - 1, m);
      DifferMul(p, q, j, r, m);
      DifferMod(b, m);
      DifferMul(r, b, -(b / m), q, m);
      DifferTrans(r * p, q * r, b * q, j * r, -(b / m) * q, m);
      k := j * r + -(b / m) * q;
    }
  }

  /** Into Montgomery form, to a power as `ExpMod` takes it, and out again: the residue of the power itself. */
  lemma PlainPower(b: nat, e: nat, m: nat, n: nat)
    requires m % 2 == 1
    ensures FromMont(MontPower(Mont(b, m, n), e, m, n), m, n) == Power(b, e) % m
  {
    hide Power, PowR, RInv;
    Unmont(b, m, n);
    Unmont(Power(b % m, e), m, n);
    var k := PowerDiffers(b, e, m);
    SameResidue(Power(b % m, e), Power(b, e), k, m);
  }

  /** Multiplying by R^2 gives the Montgomery form. */
  lemma IntoForm(v: nat, rr: nat, m: nat, n: nat)
    requires m % 2 == 1 && PowR(n) * PowR(n) >= 0
    requires rr == (PowR(n) * PowR(n)) % m
    ensures MontMul(v, rr, m, n) == Mont(v, m, n)
  {
    var p, z := PowR(n), Mont(v, m, n);
    MulPositive(v, p);
    DifferMod(v * p, m);
    var k := -((v * p) / m);
    DifferMul(z, v * p, k, p, m);
    DifferMod(p * p, m);
    var l := (p * p) / m;
    DifferMul(p * p, rr, l, v, m);
    MulAssoc(v, p, p);
    DifferTrans(z * p, (p * p) * v, v * rr, k * p, l * v, m);
    ProductIsMontMul(z, v, rr, k * p + l * v, m, n);
  }

  /** X becomes its Montgomery form, in place. */
  method ToMontRep(X: array<Limb>, N: array<Limb>, n: nat, RR: array<Limb>)
    requires 0 < n <= N.Length && n <= X.Length && n <= RR.Length && X != N && X != RR
    requires N[0] % 2 == 1 && RadixSquare(RR[..n], N[..n])
    modifies X
    ensures Value(X[..n]) == Mont(old(Value(X[..n])), old(Value(N[..n])), n)
    ensures X[n..] == old(X[n..])
  {
    hide Value, MontMul, PowR, Limbs.Radix;
    ghost var x, m, rr := X[..n], N[..n], RR[..n];
    OddValue(m);
    var mm := MontmulInit(N);
    var T := new Limb[2 * n + 1];
    assert X[0..0 + n] == x && N[0..0 + n] == m && RR[0..0 + n] == rr;
    Montmul.Montmul(X, 0, X, 0, RR, 0, n, N, n, mm, T, 0);
    IntoForm(Value(x), Value(rr), Value(m), n);
    assert X[0..0 + n] == X[..n];
  }

  /** X becomes the number that it is the Montgomery form of, in place. */
  method FromMontRep(X: array<Limb>, N: array<Limb>, n: nat)
    requires 0 < n <= N.Length && n <= X.Length && X != N
    requires N[0] % 2 == 1 && Value(N[..n]) > 1
    modifies X
    ensures Value(X[..n]) == FromMont(old(Value(X[..n])), old(Value(N[..n])), n)
    ensures X[n..] == old(X[n..])
  {
    hide Value, PowR, Limbs.Radix, RInv;
    ghost var x, m := X[..n], N[..n];
    OddValue(m);
    var mm := MontmulInit(N);
    var T := new Limb[2 * n + 1];
    var one := new Limb[1];
    one[0] := 1;
    ValueOfOne(one[..]);
    assert X[0..0 + n] == x && N[0..0 + n] == m && one[0..0 + 1] == one[..];
    Montmul.Montmul(X, 0, X, 0, one, 0, 1, N, n, mm, T, 0);
    assert Value(x) * 1 == Value(x);
    assert X[0..0 + n] == X[..n];
  }
}
