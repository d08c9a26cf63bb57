/** Carry chains, Montgomery multiplication and exponentiation (Mbed TLS's bignum_core.c). */
module BignumCore {
  import opened Arithmetic
  import opened Limbs
  import opened Montgomery

  /** Two spans of limbs do not overlap. */
  predicate Apart(a: array<Limb>, ao: nat, al: nat, b: array<Limb>, bo: nat, bl: nat) {
    a != b || ao + al <= bo || bo + bl <= ao
  }

  /** Two spans of equal length are the same or do not overlap. */
  predicate SameOrApart(a: array<Limb>, ao: nat, b: array<Limb>, bo: nat, n: nat) {
    (a == b && ao == bo) || Apart(a, ao, n, b, bo, n)
  }

  /** The state after writing the span of `n` limbs at `o` and nothing else in `x`. */
  twostate predicate OnlySpan(x: array<Limb>, o: nat, n: nat)
    reads x
  {
    forall k :: 0 <= k < x.Length && !(o <= k < o + n) ==> x[k] == old(x[k])
  }

  // ---------- addition and subtraction ----------

  lemma CarryStep(va: int, vb: int, vx: int, p: nat, a: Limb, b: Limb, t: Limb, c: nat, c': nat)
    requires vx + c * p == va + vb
    requires t + c' * Radix() == a + b + c
    ensures vx + t * p + c' * (p * Radix()) == (va + a * p) + (vb + b * p)
  {
    MulDistribute(a + b, c, p);
    MulDistribute(a, b, p);
    MulDistribute(t, c' * Radix(), p);
    MulAssoc(c', Radix(), p);
  }

  lemma AddLimbs(a: Limb, b: Limb, c: Limb)
    requires c <= 1
    ensures
      var t := AddL(c, a);
      var x := AddL(t, b);
      var c' := Bit(t < a) + Bit(x < b);
      c' <= 1 && x + c' * Radix() == a + b + c
  {
    AddCarry(c, a);
    AddCarry(AddL(c, a), b);
  }

  /** One more limb on both sides of a sum. */
  lemma ExtendSum(x: seq<Limb>, a: seq<Limb>, b: seq<Limb>, i: nat, t: Limb, c: nat, c': nat)
    requires i < |a| == |b| && |x| == i
    requires Value(x) + c * PowR(i) == Value(a[..i]) + Value(b[..i])
    requires t + c' * Radix() == a[i] + b[i] + c
    ensures Value(x + [t]) + c' * PowR(i + 1) == Value(a[..i + 1]) + Value(b[..i + 1])
  {
    assert a[..i + 1] == a[..i] + [a[i]] && b[..i + 1] == b[..i] + [b[i]];
    ValueSnoc(x, t);
    ValueSnoc(a[..i], a[i]);
    ValueSnoc(b[..i], b[i]);
    CarryStep(Value(a[..i]), Value(b[..i]), Value(x), PowR(i), a[i], b[i], t, c, c');
  }

  /** One limb of a sum; the carry out of it is found by comparing. */
  method AddWithCarry(a: Limb, b: Limb, c: Limb) returns (t: Limb, c': Limb)
    requires c <= 1
    ensures c' <= 1 && t + c' * Radix() == a + b + c
  {
    hide AddL, Radix;
    AddLimbs(a, b, c);
    t := AddL(c, a);
    var first := Bit(t < a);
    t := AddL(t, b);
    c' := first + Bit(t < b);
  }

  /** Stores one more limb of a sum. */
  method AddLimbTo(X: array<Limb>, xo: nat, x: Limb, y: Limb, i: nat, c: Limb, ghost a: seq<Limb>, ghost b: seq<Limb>)
    returns (c': Limb)
    requires xo + i < X.Length && i < |a| == |b| && x == a[i] && y == b[i] && c <= 1
    requires Value(X[xo..xo + i]) + c * PowR(i) == Value(a[..i]) + Value(b[..i])
    modifies X
    ensures c' <= 1 && Value(X[xo..xo + i + 1]) + c' * PowR(i + 1) == Value(a[..i + 1]) + Value(b[..i + 1])
    ensures forall k :: 0 <= k < X.Length && k != xo + i ==> X[k] == old(X[k])
  {
    hide Radix, PowR, Value;
    ghost var done := X[xo..xo + i];
    var t;
    t, c' := AddWithCarry(x, y, c);
    X[xo + i] := t;
    assert X[xo..xo + i + 1] == done + [t];
    ExtendSum(done, a, b, i, t, c, c');
  }

  /** X = A + B modulo the size of X; returns the carry. */
  method Add(X: array<Limb>, xo: nat, A: array<Limb>, ao: nat, B: array<Limb>, bo: nat, limbs: nat)
      returns (c: Limb)
    requires xo + limbs <= X.Length && ao + limbs <= A.Length && bo + limbs <= B.Length
    requires SameOrApart(X, xo, A, ao, limbs) && SameOrApart(X, xo, B, bo, limbs)
    modifies X
    ensures c <= 1
    ensures Value(X[xo..xo + limbs]) + c * PowR(limbs) ==
            old(Value(A[ao..ao + limbs])) + old(Value(B[bo..bo + limbs]))
    ensures OnlySpan(X, xo, limbs)
  {
    hide Radix, PowR, Value;
    c := 0;
    ghost var a, b := A[ao..ao + limbs], B[bo..bo + limbs];
    assert X[xo..xo] == [] && a[..0] == [] && b[..0] == [] && Value([]) == 0 by { ValueZeros([]); }
    for i := 0 to limbs
      invariant c <= 1
      invariant forall k :: i <= k < limbs ==> A[ao + k] == a[k] && B[bo + k] == b[k]
      invariant Value(X[xo..xo + i]) + c * PowR(i) == Value(a[..i]) + Value(b[..i])
      invariant OnlySpan(X, xo, i)
    {
      c := AddLimbTo(X, xo, A[ao + i], B[bo + i], i, c, a, b);
    }
    assert a[..limbs] == a && b[..limbs] == b;
  }

  lemma SubLimbs(a: Limb, b: Limb, c: Limb)
    requires c <= 1
    ensures
      var t := SubL(a, c);
      var c' := Bit(t < b) + Bit(a < c);
      c' <= 1 && SubL(t, b) - c' * Radix() == a - b - c
  {
    SubBorrow(a, c);
    SubBorrow(SubL(a, c), b);
  }

  lemma BorrowStep(va: int, vb: int, vx: int, p: nat, a: Limb, b: Limb, t: Limb, c: nat, c': nat)
    requires vx - c * p == va - vb
    requires t - c' * Radix() == a - b - c
    ensures vx + t * p - c' * (p * Radix()) == (va + a * p) - (vb + b * p)
  {
    var y: int, m: int, n: int := b, c, c';
    MulDistribute(a - y, -m, p);
    MulDistribute(a, -y, p);
    MulDistribute(t, -(n * Radix()), p);
    MulAssoc(c', Radix(), p);
  }

  lemma ExtendDifference(x: seq<Limb>, a: seq<Limb>, b: seq<Limb>, i: nat, t: Limb, c: nat, c': nat)
    requires i < |a| == |b| && |x| == i
    requires Value(x) - c * PowR(i) == Value(a[..i]) - Value(b[..i])
    requires t - c' * Radix() == a[i] - b[i] - c
    ensures Value(x + [t]) - c' * PowR(i + 1) == Value(a[..i + 1]) - Value(b[..i + 1])
  {
    assert a[..i + 1] == a[..i] + [a[i]] && b[..i + 1] == b[..i] + [b[i]];
    ValueSnoc(x, t);
    ValueSnoc(a[..i], a[i]);
    ValueSnoc(b[..i], b[i]);
    BorrowStep(Value(a[..i]), Value(b[..i]), Value(x), PowR(i), a[i], b[i], t, c, c');
  }

  /** X = A - B modulo the size of X; returns the borrow. */
  method Sub(X: array<Limb>, xo: nat, A: array<Limb>, ao: nat, B: array<Limb>, bo: nat, limbs: nat)
      returns (c: Limb)
    requires xo + limbs <= X.Length && ao + limbs <= A.Length && bo + limbs <= B.Length
    requires SameOrApart(X, xo, A, ao, limbs) && SameOrApart(X, xo, B, bo, limbs)
    modifies X
    ensures c <= 1
    ensures Value(X[xo..xo + limbs]) - c * PowR(limbs) ==
            old(Value(A[ao..ao + limbs])) - old(Value(B[bo..bo + limbs]))
    ensures OnlySpan(X, xo, limbs)
  {
    hide Radix, PowR, Value, SubL, Pow2;
    c := 0;
    ghost var a, b := A[ao..ao + limbs], B[bo..bo + limbs];
    assert X[xo..xo] == [] && a[..0] == [] && b[..0] == [] && Value([]) == 0 by { ValueZeros([]); }
    for i := 0 to limbs
      invariant c <= 1
      invariant forall k :: i <= k < limbs ==> A[ao + k] == a[k] && B[bo + k] == b[k]
      invariant Value(X[xo..xo + i]) - c * PowR(i) == Value(a[..i]) - Value(b[..i])
      invariant OnlySpan(X, xo, i)
    {
      ghost var done, borrow := X[xo..xo + i], c;
      SubLimbs(a[i], b[i], c);
      var z := Bit(A[ao + i] < c);
      var t := SubL(A[ao + i], c);
      c := Bit(t < B[bo + i]) + z;
      X[xo + i] := SubL(t, B[bo + i]);
      assert X[xo..xo + i + 1] == done + [SubL(t, b[i])];
      ExtendDifference(done, a, b, i, SubL(t, b[i]), borrow, c);
    }
    assert a[..limbs] == a && b[..limbs] == b;
  }

  // ---------- multiply-accumulate ----------

  /** Two limbs, a carry and a product of limbs fit two limbs. */
  lemma ProductFits(s: Limb, b: Limb, c: Limb, d: Limb)
    ensures 0 <= s * b && s * b + c + d < Radix() * Radix()
  {
    var r := Radix();
    MulPositive(s, b);
    MulMonotone(s, b, r - 1);
    MulMonotone(r - 1, s, r - 1);
    MulDistribute(r, -1, r - 1);
    MulDistribute(r, -1, r);
  }

  lemma HighFits(x: nat, h: int, r: nat)
    requires r > 0 && 0 <= x && x + h * r < r * r
    ensures h < r
  {
    if h >= r {
      MulMonotone(r, r, h);
    }
  }

  /** One step of the accumulation d + s * b + c: the new limb and the new carry. */
  function MulAddStep(s: Limb, b: Limb, c: Limb, d: Limb): (r: (Limb, Limb))
    ensures r.0 + r.1 * Radix() == d + s * b + c
  {
    ProductFits(s, b, c, d);
    DivMod(s * b, Radix());
    var low: Limb := (s * b) % Radix();
    HighFits(low, (s * b) / Radix(), Radix());
    var high: Limb := (s * b) / Radix();
    AddCarry(low, c);
    var r0 := AddL(low, c);
    AddCarry(r0, d);
    var r1 := AddL(r0, d);
    MulDistribute(high, Bit(r0 < c), Radix());
    MulDistribute(high + Bit(r0 < c), Bit(r1 < d), Radix());
    HighFits(r1, high + Bit(r0 < c) + Bit(r1 < d), Radix());
    (r1, high + Bit(r0 < c) + Bit(r1 < d))
  }

  lemma ExtendMla(x: seq<Limb>, d: seq<Limb>, s: seq<Limb>, b: Limb, i: nat, t: Limb, c: Limb, c': Limb)
    requires i < |d| && i < |s| && |x| == i
    requires Value(x) + c * PowR(i) == Value(d[..i]) + Value(s[..i]) * b
    requires t + c' * Radix() == d[i] + s[i] * b + c
    ensures Value(x + [t]) + c' * PowR(i + 1) == Value(d[..i + 1]) + Value(s[..i + 1]) * b
  {
    assert d[..i + 1] == d[..i] + [d[i]] && s[..i + 1] == s[..i] + [s[i]];
    ValueSnoc(x, t);
    ValueSnoc(d[..i], d[i]);
    ValueSnoc(s[..i], s[i]);
    MlaStep(Value(d[..i]), Value(s[..i]), Value(x), PowR(i), d[i], s[i], b, t, c, c', Radix());
  }

  lemma MlaStep(vd: int, vs: int, vx: int, p: int, d: int, s: int, b: int, t: int, c: int, c': int, r: int)
    requires vx + c * p == vd + vs * b
    requires t + c' * r == d + s * b + c
    ensures vx + t * p + c' * (p * r) == (vd + d * p) + (vs + s * p) * b
  {
    MulDistribute(d + s * b, c, p);
    MulDistribute(d, s * b, p);
    MulDistribute(t, c' * r, p);
    MulAssoc(c', r, p);
    MulDistribute(vs, s * p, b);
    MulAssoc(s, b, p);
    MulAssoc(s, p, b);
  }

  lemma ExtendCarry(x: seq<Limb>, d: seq<Limb>, v: int, i: nat, t: Limb, c: Limb, c': Limb)
    requires i < |d| && |x| == i
    requires Value(x) + c * PowR(i) == Value(d[..i]) + v
    requires t + c' * Radix() == d[i] + c
    ensures Value(x + [t]) + c' * PowR(i + 1) == Value(d[..i + 1]) + v
  {
    assert d[..i + 1] == d[..i] + [d[i]];
    ValueSnoc(x, t);
    ValueSnoc(d[..i], d[i]);
    MlaStep(Value(d[..i]), v, Value(x), PowR(i), d[i], 0, 1, t, c, c', Radix());
  }

  /** After `i` limbs: the limbs below `i` hold the sum, the others are as before. */
  ghost predicate Accumulated(D: array<Limb>, dO: nat, d: seq<Limb>, S: array<Limb>, so: nat, s: seq<Limb>,
                              b: Limb, i: nat, c: Limb)
    reads D, S
  {
    && i <= |s| <= |d| && dO + |d| <= D.Length && so + |s| <= S.Length
    && (forall k :: i <= k < |s| ==> S[so + k] == s[k])
    && (forall k :: i <= k < |d| ==> D[dO + k] == d[k])
    && Value(D[dO..dO + i]) + c * PowR(i) == Value(d[..i]) + Value(s[..i]) * b
  }

  /** The accumulation of limb `i`. */
  method MlaLimb(D: array<Limb>, dO: nat, S: array<Limb>, so: nat, i: nat, b: Limb, c: Limb,
                 ghost d: seq<Limb>, ghost s: seq<Limb>)
      returns (c': Limb)
    requires Accumulated(D, dO, d, S, so, s, b, i, c) && i < |s|
    requires SameOrApart(D, dO, S, so, |s|)
    modifies D
    ensures Accumulated(D, dO, d, S, so, s, b, i + 1, c')
    ensures OnlySpan(D, dO + i, 1)
  {
    hide Radix, PowR, Value, MulAddStep;
    ghost var done := D[dO..dO + i];
    var r := MulAddStep(S[so + i], b, c, D[dO + i]);
    D[dO + i] := r.0;
    c' := r.1;
    assert D[dO..dO + i + 1] == done + [r.0];
    ExtendMla(done, d, s, b, i, r.0, c, c');
  }

  /** The unrolled and the single steps over the limbs of S. */
  method MlaLimbs(D: array<Limb>, dO: nat, S: array<Limb>, so: nat, n: nat, b: Limb,
                  ghost d: seq<Limb>, ghost s: seq<Limb>)
      returns (c: Limb)
    requires Accumulated(D, dO, d, S, so, s, b, 0, 0) && n == |s|
    requires SameOrApart(D, dO, S, so, n)
    modifies D
    ensures Accumulated(D, dO, d, S, so, s, b, n, c)
    ensures OnlySpan(D, dO, n)
  {
    hide Accumulated;
    c := 0;
    var i := 0;
    var steps8, steps1 := n / 8, n % 8;
    while steps8 != 0
      invariant 0 <= i <= n && i + 8 * steps8 + steps1 == n
      invariant Accumulated(D, dO, d, S, so, s, b, i, c)
      invariant OnlySpan(D, dO, n)
      decreases steps8
    {
      steps8 := steps8 - 1;
      for j := 0 to 8
        invariant 0 <= i <= n && i + 8 * steps8 + steps1 + 8 - j == n
        invariant Accumulated(D, dO, d, S, so, s, b, i, c)
        invariant OnlySpan(D, dO, n)
      {
        c := MlaLimb(D, dO, S, so, i, b, c, d, s);
        i := i + 1;
      }
    }
    while steps1 != 0
      invariant 0 <= i <= n && i + steps1 == n
      invariant Accumulated(D, dO, d, S, so, s, b, i, c)
      invariant OnlySpan(D, dO, n)
      decreases steps1
    {
      steps1 := steps1 - 1;
      c := MlaLimb(D, dO, S, so, i, b, c, d, s);
      i := i + 1;
    }
  }

  /** D = D + b * S modulo the size of D; returns the carry. */
  method Mla(D: array<Limb>, dO: nat, dLen: nat, S: array<Limb>, so: nat, sLen: nat, b: Limb)
      returns (c: Limb)
    requires dO + dLen <= D.Length && so + sLen <= S.Length
    requires SameOrApart(D, dO, S, so, Min(sLen, dLen))
    modifies D
    ensures Value(D[dO..dO + dLen]) + c * PowR(dLen) ==
            old(Value(D[dO..dO + dLen])) + old(Value(S[so..so + Min(sLen, dLen)])) * b
    ensures OnlySpan(D, dO, dLen)
  {
    hide Radix, PowR, Value, AddL, Accumulated;
    var n: nat := if dLen < sLen then dLen else sLen;
    var excess: nat := dLen - n;
    ghost var d, s := D[dO..dO + dLen], S[so..so + n];
    assert Accumulated(D, dO, d, S, so, s, b, 0, 0) by {
      StartAccumulating(D, dO, dLen, S, so, n, b);
    }
    c := MlaLimbs(D, dO, S, so, n, b, d, s);
    ghost var product := Value(s) * b;
    assert s[..n] == s;
    assert Value(D[dO..dO + n]) + c * PowR(n) == Value(d[..n]) + product
      && (forall k :: n <= k < dLen ==> D[dO + k] == d[k]) by {
      UseAccumulated(D, dO, d, S, so, s, b, n, c);
    }
    var i: nat := n;
    while excess != 0
      invariant n <= i <= dLen && i + excess == dLen
      invariant forall k :: i <= k < dLen ==> D[dO + k] == d[k]
      invariant Value(D[dO..dO + i]) + c * PowR(i) == Value(d[..i]) + product
      invariant OnlySpan(D, dO, i)
      decreases excess
    {
      excess := excess - 1;
      ghost var done, carry := D[dO..dO + i], c;
      AddCarry(d[i], c);
      D[dO + i] := AddL(D[dO + i], c);
      c := Bit(D[dO + i] < c);
      assert D[dO..dO + i + 1] == done + [AddL(d[i], carry)];
      ExtendCarry(done, d, product, i, AddL(d[i], carry), carry, c);
      i := i + 1;
    }
    assert d[..dLen] == d;
  }

  lemma StartAccumulating(D: array<Limb>, dO: nat, dLen: nat, S: array<Limb>, so: nat, n: nat, b: Limb)
    requires dO + dLen <= D.Length && so + n <= S.Length && n <= dLen
    ensures Accumulated(D, dO, D[dO..dO + dLen], S, so, S[so..so + n], b, 0, 0)
  {
    ghost var d, s := D[dO..dO + dLen], S[so..so + n];
    assert D[dO..dO + 0] == [] && d[..0] == [] && s[..0] == [];
  }

  lemma UseAccumulated(D: array<Limb>, dO: nat, d: seq<Limb>, S: array<Limb>, so: nat, s: seq<Limb>,
                       b: Limb, i: nat, c: Limb)
    requires Accumulated(D, dO, d, S, so, s, b, i, c)
    ensures i <= |s| <= |d| && dO + |d| <= D.Length
    ensures Value(D[dO..dO + i]) + c * PowR(i) == Value(d[..i]) + Value(s[..i]) * b
    ensures forall k :: i <= k < |d| ==> D[dO + k] == d[k]
  {
  }

  // ---------- the Montgomery constant ----------

  lemma SeedResidue(r: nat) returns (e: int)
    requires r < 16 && r % 2 == 1
    ensures r * (r + 8 * (((r + 2) / 4) % 2)) == e * 16 + 1
  {
    if r == 1 || r == 5 || r == 9 || r == 13 {
      e := if r == 1 then 0 else if r == 5 then 4 else if r == 9 then 5 else 17;
    } else {
      e := if r == 3 then 2 else if r == 7 then 3 else if r == 11 then 13 else 14;
    }
  }

  lemma RadixSplit(k: nat)
    requires k <= BIL
    ensures Radix() == Pow2(BIL - k) * Pow2(k)
  {
    Pow2Add(BIL - k, k);
  }

  lemma DifferWeaken(x: int, y: int, k: int, c: int, m: nat, r: nat)
    requires r == c * m && Differ(x, y, k, r)
    ensures Differ(x, y, k * c, m)
  {
    MulAssoc(k, c, m);
  }

  /** The start value is an inverse of the odd limb modulo 16. */
  lemma InverseSeed(n: Limb, x: Limb) returns (e: int)
    requires n % 2 == 1
    requires x == AddL(n, 8 * ((AddL(n, 2) / 4) % 2))
    ensures Differ(n * x, 1, e, 16)
  {
    hide Pow2, Radix;
    RadixSplit(4);
    Pow2Of4();
    var y := AddL(n, 2);
    AddCarry(n, 2);
    AddCarry(n, 8 * ((y / 4) % 2));
    e := SeedOf(n, Pow2(BIL - 4), y, Bit(y < n), x, Bit(x < n));
  }

  lemma SeedOf(n: int, w: int, y: int, q: int, x: int, q2: int) returns (e: int)
    requires 0 <= n && n % 2 == 1
    requires y + q * (w * 16) == n + 2 && x + q2 * (w * 16) == n + 8 * ((y / 4) % 2)
    ensures Differ(n * x, 1, e, 16)
  {
    var m, r := n / 16, n % 16;
    MulAssoc(q, w, 16);
    assert y == 16 * (m - q * w) + (r + 2);
    BitOf(m - q * w, r, y);
    var b := ((r + 2) / 4) % 2;
    var e0 := SeedResidue(r);
    SeedProduct(n, m, r, 8 * b, e0);
    SeedWrap(n, n + 8 * b, q2, w, x);
    e := m * (n + 8 * b) + r * m + e0 - n * (q2 * w);
  }

  lemma BitOf(k: int, r: nat, y: int)
    requires y == 16 * k + (r + 2) && r < 16
    ensures (y / 4) % 2 == ((r + 2) / 4) % 2
  {
    ModOfSum(r + 2, 4 * k, 4);
    ModOfSum((r + 2) / 4, 2 * k, 2);
  }

  lemma SeedProduct(n: int, m: int, r: int, b: int, e: int)
    requires n == 16 * m + r && r * (r + b) == e * 16 + 1
    ensures n * (n + b) == 1 + (m * (n + b) + r * m + e) * 16
  {
    MulDistribute(16 * m, r, n + b);
    MulAssoc(16, m, n + b);
    assert r * (n + b) == r * (16 * m) + r * (r + b);
    MulAssoc(r, 16, m);
  }

  lemma SeedWrap(n: int, y: int, q: int, w: int, x: int)
    requires x == y - q * (w * 16)
    ensures n * x == n * y - n * (q * w) * 16
  {
    MulAssoc(q, w, 16);
    MulDistribute(y, -(q * w * 16), n);
    MulAssoc(n, q * w, 16);
  }

  /** A Newton step doubles the number of bits to which `x` is an inverse of `n`. */
  lemma NewtonStep(n: Limb, x: Limb, k: nat, e: int) returns (e': int)
    requires Differ(n * x, 1, e, Pow2(k)) && 2 * k <= BIL
    ensures Differ(n * MulL(x, SubL(2, MulL(n, x))), 1, e', Pow2(2 * k))
  {
    hide Pow2, Radix;
    Pow2Add(k, k);
    RadixSplit(2 * k);
    var y := MulL(n, x);
    var s := SubL(2, y);
    e' := NewtonResidue(n, x, Radix(), Pow2(BIL - 2 * k), Pow2(k), Pow2(2 * k), e, y, s, MulL(x, s));
  }

  lemma NewtonResidue(n: int, x: int, r: nat, c: int, p: nat, m: nat, e: int, y: int, s: int, x': int)
      returns (e': int)
    requires r > 0 && r == c * m && m == p * p && Differ(n * x, 1, e, p)
    requires y == (n * x) % r && s == (2 - y) % r && x' == (x * s) % r
    ensures Differ(n * x', 1, e', m)
  {
    DifferMod(n * x, r);
    DifferMod(2 - y, r);
    DifferMod(x * s, r);
    var k1, k2, k3 := (n * x) / r, -((2 - y) / r), -((x * s) / r);
    NewtonSlack(s, y, n * x, k1, k2, r);
    DifferMul(s, 2 - n * x, k2 + k1, x, r);
    DifferTrans(x', x * s, x * (2 - n * x), k3, (k2 + k1) * x, r);
    DifferMul(x', x * (2 - n * x), k3 + (k2 + k1) * x, n, r);
    var k4 := (k3 + (k2 + k1) * x) * n;
    NewtonShape(n, x, 2 - n * x);
    DifferWeaken(n * x', (n * x) * (2 - n * x), k4, c, m, r);
    NewtonError(n * x, e, p, m);
    e' := k4 * c - e * e;
    DifferTrans(n * x', (n * x) * (2 - n * x), 1, k4 * c, -(e * e), m);
  }

  lemma NewtonSlack(s: int, y: int, z: int, k1: int, k2: int, r: nat)
    requires Differ(s, 2 - y, k2, r) && Differ(z, y, k1, r)
    ensures Differ(s, 2 - z, k2 + k1, r)
  {
    MulDistribute(k2, k1, r);
  }

  lemma NewtonShape(n: int, x: int, z: int)
    ensures (x * z) * n == (n * x) * z
  {
    MulAssoc(n, x, z);
  }

  lemma NewtonError(y: int, e: int, p: int, m: nat)
    requires y == 1 + e * p && m == p * p
    ensures Differ(y * (2 - y), 1, -(e * e), m)
  {
    var d := e * p;
    assert y * (2 - y) == 1 - d * d;
    MulAssoc(e, p, d);
    MulAssoc(p, e, p);
    MulAssoc(e, e, m);
    MulAssoc(e, p, p);
    assert d * d == (e * e) * m;
  }

  lemma Pow2Of4()
    ensures Pow2(4) == 16
  {
    assert Pow2(0) == 1 && Pow2(2) == 4;
  }

  /** The Montgomery constant -N^-1 modulo the radix, by Newton iteration. */
  method MontmulInit(N: array<Limb>) returns (mm: Limb)
    requires N.Length > 0 && N[0] % 2 == 1
    ensures (N[0] * mm + 1) % Radix() == 0
  {
    hide Radix, Pow2, AddL, SubL, MulL, Differ;
    var x := AddL(N[0], 8 * ((AddL(N[0], 2) / 4) % 2));
    ghost var k: nat := 4;
    ghost var e := InverseSeed(N[0], x);
    Pow2Of4();
    var i: int := BIL;
    while i >= 8
      invariant || (i == 64 && 16 * k == BIL) || (i == 32 && 8 * k == BIL) || (i == 16 && 4 * k == BIL)
                || (i == 8 && 2 * k == BIL) || (i == 4 && k == BIL)
      invariant Differ(N[0] as int * x as int, 1, e, Pow2(k))
      decreases i
    {
      e := NewtonStep(N[0], x, k, e);
      x := MulL(x, SubL(2, MulL(N[0], x)));
      k := 2 * k;
      i := i / 2;
    }
    mm := AddL(NotL(x), 1);
    Negation(x);
    assert Radix() == Pow2(BIL);
    NegatedInverse(N[0], x, e, mm, Radix());
  }

  lemma Negation(x: Limb)
    ensures AddL(NotL(x), 1) == (Radix() as int - x as int) % Radix()
  {
  }

  lemma NegatedInverse(n: int, x: int, e: int, mm: int, r: nat)
    requires r > 0 && Differ(n * x, 1, e, r) && mm == (r - x) % r
    ensures (n * mm + 1) % r == 0
  {
    DifferMod(r - x, r);
    var k := -((r - x) / r);
    DifferMul(mm, r - x, k, n, r);
    MulDistribute(r, -x, n);
    MulDistribute(k * n, n - e, r);
    MulDistribute(n, -e, r);
    SameResidue(n * mm + 1, 0, k * n + n - e, r);
  }
}
