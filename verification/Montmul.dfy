/** Montgomery multiplication, HAC 14.36 (Mbed TLS's bignum_core.c). */
module Montmul {
  import opened Arithmetic
  import opened Limbs
  import opened Montgomery
  import opened BignumCore

  /** A modulus as the code requires it: odd, with its Montgomery constant. */
  ghost predicate Modulus(N: seq<Limb>, mm: Limb) {
    |N| > 0 && N[0] % 2 == 1 && (N[0] * mm + 1) % Radix() == 0
  }

  // ---------- one round ----------

  /** The multiple of N that makes the lowest limb vanish. */
  lemma RoundExact(t: int, b: int, m: int, t0: int, b0: int, m0: int, th: int, bh: int, mh: int,
                   u0: int, u1: int, mm: int, r: nat) returns (z: int)
    requires r > 0 && t == t0 + r * th && b == b0 + r * bh && m == m0 + r * mh
    requires (m0 * mm + 1) % r == 0
    requires u1 == (((t0 + (u0 * b0) % r) % r) * mm) % r
    ensures t + u0 * b + u1 * m == z * r
  {
    var p := (u0 * b0) % r;
    var w := (t0 + p) % r;
    DifferMod(u0 * b0, r);
    DifferMod(t0 + p, r);
    DifferMod(w * mm, r);
    DifferMod(m0 * mm + 1, r);
    var k1, k2, k3, k4 := (u0 * b0) / r, (t0 + p) / r, -((w * mm) / r), (m0 * mm + 1) / r;
    assert u0 * b0 == p + k1 * r && t0 + p == w + k2 * r && u1 == w * mm + k3 * r && m0 * mm + 1 == k4 * r;
    z := th + u0 * bh + u1 * mh + k1 + k2 + k3 * m0 + w * k4;
    RoundSum(t0, b0, m0, th, bh, mh, u0, u1, mm, r, p, w, k1, k2, k3, k4);
  }

  lemma RoundSum(t0: int, b0: int, m0: int, th: int, bh: int, mh: int, u0: int, u1: int, mm: int, r: int,
                 p: int, w: int, k1: int, k2: int, k3: int, k4: int)
    requires u0 * b0 == p + k1 * r && t0 + p == w + k2 * r
    requires u1 == w * mm + k3 * r && m0 * mm + 1 == k4 * r
    ensures (t0 + r * th) + u0 * (b0 + r * bh) + u1 * (m0 + r * mh)
         == (th + u0 * bh + u1 * mh + k1 + k2 + k3 * m0 + w * k4) * r
  {
    var x, y := u0 * bh, u1 * mh;
    assert u0 * (b0 + r * bh) == u0 * b0 + x * r by { Spread(u0, b0, r, bh); }
    assert u1 * (m0 + r * mh) == u1 * m0 + y * r by { Spread(u1, m0, r, mh); }
    assert u1 * m0 == w * (mm * m0) + (k3 * m0) * r by {
      MulDistribute(w * mm, k3 * r, m0);
      MulAssoc(w, mm, m0);
      MulAssoc(k3, r, m0);
      MulAssoc(k3, m0, r);
    }
    assert w * (mm * m0) + w == (w * k4) * r by {
      MulAssoc(w, k4, r);
      MulDistribute(mm * m0, 1, w);
    }
    SevenTerms(th, x, y, k1, k2, k3 * m0, w * k4, r);
  }

  lemma Spread(u: int, a: int, r: int, h: int)
    ensures u * (a + r * h) == u * a + (u * h) * r
  {
    MulDistribute(a, r * h, u);
    MulAssoc(u, h, r);
  }

  lemma SevenTerms(a: int, b: int, c: int, d: int, e: int, f: int, g: int, r: int)
    ensures (a + b + c + d + e + f + g) * r == a * r + b * r + c * r + d * r + e * r + f * r + g * r
  {
    MulDistribute(a + b + c + d + e + f, g, r);
    MulDistribute(a + b + c + d + e, f, r);
    MulDistribute(a + b + c + d, e, r);
    MulDistribute(a + b + c, d, r);
    MulDistribute(a + b, c, r);
    MulDistribute(a, b, r);
  }

  /** The accumulator stays below N + B. */
  lemma RoundBound(t: int, b: int, m: int, u0: int, u1: int, r: int, t': int)
    requires 0 <= b && 0 <= m && t < m + b && 0 <= u0 < r && 0 <= u1 < r
    requires t + u0 * b + u1 * m == t' * r
    ensures t' < m + b
  {
    MulMonotone(b, u0, r - 1);
    MulMonotone(m, u1, r - 1);
    MulDistribute(r, -1, b);
    MulDistribute(r, -1, m);
    MulDistribute(m, b, r);
    if t' >= m + b {
      MulMonotone(r, m + b, t');
    }
  }

  /** What the accumulator represents after one more round. */
  lemma RoundMeaning(t: int, t': int, p: int, r: int, a: int, b: int, q: int, u0: int, u1: int, m: nat)
    requires Differ(t * p, a * b, q, m) && t + u0 * b + u1 * m == t' * r
    ensures Differ(t' * (p * r), (a + u0 * p) * b, q + u1 * p, m)
  {
    MulAssoc(t', r, p);
    MulDistribute(t + u0 * b, u1 * m, p);
    MulDistribute(t, u0 * b, p);
    MulAssoc(u0, b, p);
    MulAssoc(u0, p, b);
    MulDistribute(a, u0 * p, b);
    MulAssoc(u1, m, p);
    MulAssoc(u1, p, m);
    MulDistribute(q, u1 * p, m);
  }

  lemma NoCarry(v: nat, c: nat, p: nat, total: nat)
    requires v + c * p == total && total < p
    ensures c == 0 && v == total
  {
    if c > 0 {
      MulMonotone(p, 1, c);
    }
  }

  /** The sum of a round fits one more limb than the accumulator. */
  lemma RoundFits(t: int, b: int, m: int, u0: int, u1: int, r: int, p: int)
    requires 0 <= t < m + b && 0 <= b < m <= p && 0 <= u0 < r && 0 <= u1 < r && r >= 2
    ensures 0 <= t + u0 * b <= t + u0 * b + u1 * m < (p * r) * r
  {
    MulPositive(u0, b);
    MulPositive(u1, m);
    MulMonotone(b, u0, r - 1);
    MulMonotone(m, u1, r - 1);
    MulDistribute(r, -1, b);
    MulDistribute(r, -1, m);
    MulMonotone(r, b, p);
    MulMonotone(r, m, p);
    MulPositive(p, r);
    MulMonotone(p * r, 2, r);
    MulMonotone(r, b + 1, p);
  }

  // ---------- the loop ----------

  /** The accumulator after `i` rounds: n + 1 limbs at `to + i`, with only zeros behind them. */
  ghost predicate Accumulator(T: array<Limb>, to: nat, n: nat, i: nat, t: nat)
    reads T
  {
    && i <= n && to + 2 * n + 1 <= T.Length
    && t == Value(T[to + i..to + i + n + 1])
    && (forall k :: to + i + n + 1 <= k < to + 2 * n + 1 ==> T[k] == 0)
  }

  lemma WithZero(s: seq<Limb>)
    requires |s| > 0 && s[|s| - 1] == 0
    ensures Value(s) == Value(s[..|s| - 1])
  {
  }

  /** A value that is a multiple of the radix has a zero lowest limb. */
  lemma LowLimbZero(s: seq<Limb>, z: int)
    requires |s| > 0 && Value(s) == z * Radix()
    ensures Value(s[1..]) == z && s[0] == 0
  {
    hide Radix, PowR, Value;
    ValueLow(s);
    DivModUnique(Value(s), Radix(), Value(s[1..]), s[0]);
    DivModUnique(Value(s), Radix(), z, 0);
  }

  /** An accumulation whose result fits has no carry to lose. */
  method MlaExact(D: array<Limb>, dO: nat, dLen: nat, S: array<Limb>, so: nat, sLen: nat, b: Limb)
    requires dO + dLen <= D.Length && so + sLen <= S.Length && sLen <= dLen
    requires Apart(D, dO, dLen, S, so, sLen)
    requires 0 <= Value(D[dO..dO + dLen]) + Value(S[so..so + sLen]) * b < PowR(dLen)
    modifies D
    ensures Value(D[dO..dO + dLen]) == old(Value(D[dO..dO + dLen])) + old(Value(S[so..so + sLen])) * b
    ensures OnlySpan(D, dO, dLen)
  {
    hide Value, Radix, PowR;
    ghost var total := Value(D[dO..dO + dLen]) + Value(S[so..so + sLen]) * b;
    assert Min(sLen, dLen) == sLen;
    var c := Mla(D, dO, dLen, S, so, sLen, b);
    NoCarry(Value(D[dO..dO + dLen]), c, PowR(dLen), total);
  }

  /** The two accumulations of one round: t' = (t + A[i] * B + u1 * N) / radix, exactly. */
  method Round(A: array<Limb>, ao: nat, i: nat, B: array<Limb>, bo: nat, bLimbs: nat, N: array<Limb>, n: nat,
               mm: Limb, T: array<Limb>, to: nat, ghost t: nat)
      returns (ghost t': nat, ghost u1: Limb)
    requires ao + n <= A.Length && bo + bLimbs <= B.Length && n <= N.Length && 0 < bLimbs <= n
    requires Apart(A, ao, n, T, to, 2 * n + 1) && Apart(B, bo, bLimbs, T, to, 2 * n + 1)
    requires Apart(N, 0, n, T, to, 2 * n + 1)
    requires Modulus(N[..n], mm)
    requires Value(B[bo..bo + bLimbs]) < Value(N[..n])
    requires i < n && Accumulator(T, to, n, i, t) && t < Value(N[..n]) + Value(B[bo..bo + bLimbs])
    modifies T
    ensures Accumulator(T, to, n, i + 1, t')
    ensures t + old(Value(B[bo..bo + bLimbs])) * old(A[ao + i]) + old(Value(N[..n])) * u1 == t' * Radix()
    ensures OnlySpan(T, to, 2 * n + 1)
  {
    hide Value, Radix, PowR, AddL, MulL, Modulus, Pow2;
    ghost var b, m := B[bo..bo + bLimbs], N[..n];
    ghost var s0 := T[to + i..to + i + n + 2];
    assert Value(s0) == t && s0[0] == T[to + i] by {
      WithZero(s0);
      assert s0[..n + 1] == T[to + i..to + i + n + 1];
    }
    var u0 := A[ao + i];
    var u := MulL(AddL(T[to + i], MulL(u0, B[bo])), mm);
    u1 := u;
    RoundSize(t, b, m, u0, u1);
    MlaExact(T, to + i, n + 2, B, bo, bLimbs, u0);
    assert N[0..0 + n] == m;
    MlaExact(T, to + i, n + 2, N, 0, n, u);
    ghost var z := RoundDivides(s0, b, m, u0, u1, mm);
    ghost var s2 := T[to + i..to + i + n + 2];
    LowLimbZero(s2, z);
    t' := Value(s2[1..]);
    assert s2[1..] == T[to + i + 1..to + i + 1 + n + 1];
  }

  lemma RoundSize(t: nat, b: seq<Limb>, m: seq<Limb>, u0: Limb, u1: Limb)
    requires |m| > 0 && Value(b) < Value(m) && t < Value(m) + Value(b)
    ensures 0 <= t + Value(b) * u0 <= t + Value(b) * u0 + Value(m) * u1 < PowR(|m| + 2)
  {
    hide Value, Radix;
    ValueBound(m);
    RoundFits(t, Value(b), Value(m), u0, u1, Radix(), PowR(|m|));
    assert PowR(|m| + 2) == PowR(|m|) * Radix() * Radix();
  }

  lemma RoundDivides(t: seq<Limb>, b: seq<Limb>, m: seq<Limb>, u0: Limb, u1: Limb, mm: Limb) returns (z: int)
    requires |t| > 0 && |b| > 0 && Modulus(m, mm)
    requires u1 == MulL(AddL(t[0], MulL(u0, b[0])), mm)
    ensures Value(t) + Value(b) * u0 + Value(m) * u1 == z * Radix()
  {
    hide Value, Radix;
    ValueLow(t);
    ValueLow(b);
    ValueLow(m);
    z := RoundExact(Value(t), Value(b), Value(m), t[0], b[0], m[0],
                    Value(t[1..]), Value(b[1..]), Value(m[1..]), u0, u1, mm, Radix());
  }

  // ---------- the final subtraction ----------

  /**
    The three ranges of the accumulator: with `carry` its top limb and `borrow` that of the
    subtraction of N from the others, the difference is the result exactly when they agree,
    and a carry without a borrow cannot happen.
   */
  lemma FinalRanges(t: nat, low: nat, carry: nat, x: nat, borrow: nat, m: nat, p: nat)
    requires t == low + carry * p && low < p && x < p && borrow <= 1 && 0 < m <= p && t < 2 * m
    requires x - borrow * p == low - m
    ensures carry <= 1 && !(carry == 1 && borrow == 0)
    ensures carry == borrow ==> x == t - m && x < m
    ensures carry != borrow ==> low == t && low < m
  {
    if carry >= 2 {
      MulMonotone(p, 2, carry);
    }
  }

  /** X = T if `assign`, X unchanged otherwise. */
  method CondAssign(X: array<Limb>, xo: nat, T: array<Limb>, to: nat, limbs: nat, assign: bool)
    requires xo + limbs <= X.Length && to + limbs <= T.Length && Apart(X, xo, limbs, T, to, limbs)
    modifies X
    ensures X[xo..xo + limbs] == if assign then old(T[to..to + limbs]) else old(X[xo..xo + limbs])
    ensures OnlySpan(X, xo, limbs)
  {
    ghost var x, t := X[xo..xo + limbs], T[to..to + limbs];
    ghost var chosen := if assign then t else x;
    for i := 0 to limbs
      invariant X[xo..xo + limbs] == FirstOf(chosen, x, i)
      invariant T[to..to + limbs] == t && OnlySpan(X, xo, limbs)
    {
      hide FirstOf, Pow2;
      ghost var before := X[xo..xo + limbs];
      OneMoreOf(chosen, x, i);
      assert T[to + i] == t[i] && X[xo + i] == before[i];
      X[xo + i] := if assign then T[to + i] else X[xo + i];
      assert X[xo..xo + limbs] == before[i := chosen[i]];
      assert T[to..to + limbs] == t;
    }
  }

  /** The limbs `x` with the first `i` of them from `s`. */
  ghost function FirstOf(s: seq<Limb>, x: seq<Limb>, i: nat): (r: seq<Limb>)
    requires |s| == |x| && i <= |x|
    ensures |r| == |x| && (i == 0 ==> r == x) && (i == |x| ==> r == s)
  {
    s[..i] + x[i..]
  }

  lemma OneMoreOf(s: seq<Limb>, x: seq<Limb>, i: nat)
    requires |s| == |x| && i < |x|
    ensures FirstOf(s, x, i)[i] == x[i] && FirstOf(s, x, i)[i := s[i]] == FirstOf(s, x, i + 1)
  {
  }

  /** What the loop has established after `i` rounds. */
  ghost predicate Rounds(t: nat, q: int, a: seq<Limb>, i: nat, b: nat, m: nat)
    requires i <= |a|
  {
    t < m + b && Differ(t * PowR(i), Value(a[..i]) * b, q, m)
  }

  lemma NextRound(t: nat, q: int, a: seq<Limb>, i: nat, b: nat, m: nat, u1: Limb, t': nat) returns (q': int)
    requires i < |a| && Rounds(t, q, a, i, b, m)
    requires t + b * a[i] + m * u1 == t' * Radix()
    ensures Rounds(t', q', a, i + 1, b, m)
  {
    hide Radix;
    assert a[..i + 1] == a[..i] + [a[i]];
    ValueSnoc(a[..i], a[i]);
    RoundBound(t, b, m, a[i], u1, Radix(), t');
    RoundMeaning(t, t', PowR(i), Radix(), Value(a[..i]), b, q, a[i], u1, m);
    q' := q + u1 * PowR(i);
  }

  /** Sets a span of limbs to zero (memset). */
  method Clear(T: array<Limb>, to: nat, n: nat)
    requires to + n <= T.Length
    modifies T
    ensures OnlySpan(T, to, n) && forall j :: to <= j < to + n ==> T[j] == 0
  {
    for k := to to to + n
      invariant forall j :: to <= j < k ==> T[j] == 0
      invariant OnlySpan(T, to, n)
    {
      T[k] := 0;
    }
  }

  /** The loop over the limbs of A. */
  method Accumulate(A: array<Limb>, ao: nat, B: array<Limb>, bo: nat, bLimbs: nat, N: array<Limb>, n: nat,
                    mm: Limb, T: array<Limb>, to: nat)
      returns (ghost t: nat, ghost q: int)
    requires ao + n <= A.Length && bo + bLimbs <= B.Length && n <= N.Length && 0 < bLimbs <= n
    requires to + 2 * n + 1 <= T.Length
    requires Apart(A, ao, n, T, to, 2 * n + 1) && Apart(B, bo, bLimbs, T, to, 2 * n + 1)
    requires Apart(N, 0, n, T, to, 2 * n + 1)
    requires Modulus(N[..n], mm)
    requires Value(B[bo..bo + bLimbs]) < Value(N[..n])
    modifies T
    ensures Accumulator(T, to, n, n, t)
    ensures Rounds(t, q, old(A[ao..ao + n]), n, old(Value(B[bo..bo + bLimbs])), old(Value(N[..n])))
    ensures OnlySpan(T, to, 2 * n + 1)
  {
    hide Value, PowR, Radix, Modulus, Rounds, Accumulator, Pow2;
    ghost var a, b, m, x0 := A[ao..ao + n], B[bo..bo + bLimbs], N[..n], T[..];
    Clear(T, to, 2 * n + 1);
    StillThere(A, ao, n, T, to, 2 * n + 1, a, x0);
    StillThere(B, bo, bLimbs, T, to, 2 * n + 1, b, x0);
    StillThere(N, 0, n, T, to, 2 * n + 1, m, x0);
    t, q := 0, 0;
    StartRounds(T, to, n, a, Value(b), Value(m));
    for i := 0 to n
      invariant Accumulator(T, to, n, i, t)
      invariant A[ao..ao + n] == a && B[bo..bo + bLimbs] == b && N[..n] == m
      invariant Rounds(t, q, a, i, Value(b), Value(m))
      invariant t < Value(m) + Value(b)
      invariant OnlySpan(T, to, 2 * n + 1)
    {
      ghost var x := T[..];
      ghost var t', u1 := Round(A, ao, i, B, bo, bLimbs, N, n, mm, T, to, t);
      q := NextRound(t, q, a, i, Value(b), Value(m), u1, t');
      t := t';
      RoundsBound(t, q, a, i + 1, Value(b), Value(m));
      StillThere(A, ao, n, T, to, 2 * n + 1, a, x);
      StillThere(B, bo, bLimbs, T, to, 2 * n + 1, b, x);
      StillThere(N, 0, n, T, to, 2 * n + 1, m, x);
    }
  }

  /** A span apart from the one that was written to is as it was. */
  lemma StillThere(A: array<Limb>, ao: nat, n: nat, T: array<Limb>, to: nat, k: nat, a: seq<Limb>, x: seq<Limb>)
    requires ao + n <= A.Length && Apart(A, ao, n, T, to, k) && |x| == T.Length
    requires forall j :: 0 <= j < T.Length && !(to <= j < to + k) ==> T[j] == x[j]
    requires if A == T then x[ao..ao + n] == a else A[ao..ao + n] == a
    ensures A[ao..ao + n] == a
  {
    if A == T {
      assert A[ao..ao + n] == x[ao..ao + n];
    }
  }

  lemma RoundsBound(t: nat, q: int, a: seq<Limb>, i: nat, b: nat, m: nat)
    requires i <= |a| && Rounds(t, q, a, i, b, m)
    ensures t < m + b
  {
  }

  lemma StartRounds(T: array<Limb>, to: nat, n: nat, a: seq<Limb>, b: nat, m: nat)
    requires to + 2 * n + 1 <= T.Length && b < m
    requires forall j :: to <= j < to + 2 * n + 1 ==> T[j] == 0
    ensures Accumulator(T, to, n, 0, 0) && Rounds(0, 0, a, 0, b, m)
  {
    ValueZeros(T[to + 0..to + 0 + n + 1]);
    assert a[..0] == [];
  }

  /** Everything outside two spans is unchanged. */
  twostate predicate OnlySpans(X: array<Limb>, xo: nat, n: nat, T: array<Limb>, to: nat, m: nat)
    reads X, T
  {
    && (forall k :: 0 <= k < X.Length && !(xo <= k < xo + n) && (X != T || !(to <= k < to + m)) ==> X[k] == old(X[k]))
    && (forall k :: 0 <= k < T.Length && !(to <= k < to + m) && (X != T || !(xo <= k < xo + n)) ==> T[k] == old(T[k]))
  }

  /** X = A * B * R^-1 mod N, where R is the radix to the number of limbs of N. */
  method Montmul(X: array<Limb>, xo: nat, A: array<Limb>, ao: nat, B: array<Limb>, bo: nat, bLimbs: nat,
                 N: array<Limb>, n: nat, mm: Limb, T: array<Limb>, to: nat)
    requires ao + n <= A.Length && bo + bLimbs <= B.Length && n <= N.Length && 0 < bLimbs <= n
    requires xo + n <= X.Length && to + 2 * n + 1 <= T.Length
    requires Apart(A, ao, n, T, to, 2 * n + 1) && Apart(B, bo, bLimbs, T, to, 2 * n + 1)
    requires Apart(N, 0, n, T, to, 2 * n + 1) && Apart(X, xo, n, T, to, 2 * n + 1)
    requires SameOrApart(X, xo, N, 0, n)
    requires Modulus(N[..n], mm)
    requires Value(B[bo..bo + bLimbs]) < Value(N[..n])
    modifies X, T
    ensures Value(X[xo..xo + n]) ==
            MontMul(old(Value(A[ao..ao + n])), old(Value(B[bo..bo + bLimbs])), old(Value(N[..n])), n)
    ensures Value(X[xo..xo + n]) < old(Value(N[..n]))
    ensures OnlySpans(X, xo, n, T, to, 2 * n + 1)
  {
    hide Value, PowR, Radix, MontMul, Rounds, Pow2;
    ghost var a, b, m := A[ao..ao + n], B[bo..bo + bLimbs], N[..n];
    ghost var t, q := Accumulate(A, ao, B, bo, bLimbs, N, n, mm, T, to);
    ghost var low := T[to + n..to + n + n];
    var carry := T[to + n + n];
    assert T[to + n..to + n + n + 1] == low + [carry];
    assert N[0..0 + n] == m;
    var borrow := Sub(X, xo, T, to + n, N, 0, n);
    assert T[to + n..to + n + n] == low;
    FinalValue(t, q, a, Value(b), m, low, carry, X[xo..xo + n], borrow);
    CondAssign(X, xo, T, to + n, n, carry != borrow);
  }

  lemma OddValue(s: seq<Limb>)
    requires |s| > 0 && s[0] % 2 == 1
    ensures Value(s) % 2 == 1
  {
    hide Value, Radix, Pow2;
    ValueLow(s);
    RadixEven();
    OddSum(s[0], Pow2(BIL - 1), Value(s[1..]));
  }

  lemma RadixEven()
    ensures Radix() == 2 * Pow2(BIL - 1)
  {
  }

  lemma OddSum(a: int, h: int, v: int)
    requires a % 2 == 1
    ensures (a + 2 * h * v) % 2 == 1
  {
    MulAssoc(2, h, v);
  }

  /** The selected limbs are the Montgomery product. */
  lemma FinalValue(t: nat, q: int, a: seq<Limb>, b: nat, m: seq<Limb>, low: seq<Limb>, carry: Limb,
                   x: seq<Limb>, borrow: nat)
    requires |a| == |m| == |low| == |x| > 0 && m[0] % 2 == 1 && b < Value(m)
    requires Rounds(t, q, a, |a|, b, Value(m))
    requires t == Value(low + [carry]) && borrow <= 1
    requires Value(x) - borrow * PowR(|a|) == Value(low) - Value(m)
    ensures
      var r := Value(if carry != borrow then low else x);
      r < Value(m) && r == MontMul(Value(a), b, Value(m), |a|)
  {
    hide Value, PowR, Radix, MontMul;
    var n := |a|;
    ValueSnoc(low, carry);
    ValueBound(low);
    ValueBound(x);
    ValueBound(m);
    FinalRanges(t, Value(low), carry, Value(x), borrow, Value(m), PowR(n));
    var r := Value(if carry != borrow then low else x);
    OddValue(m);
    assert a[..n] == a;
    var k := if carry != borrow then 0 else 1;
    assert t == r + k * Value(m);
    SubtractOnce(t, r, k, PowR(n), Value(a) * b, q, Value(m));
    ProductIsMontMul(r, Value(a), b, q - k * PowR(n), Value(m), n);
  }

  lemma SubtractOnce(t: int, r: int, k: int, p: int, ab: int, q: int, m: nat)
    requires t == r + k * m && Differ(t * p, ab, q, m)
    ensures Differ(r * p, ab, q - k * p, m)
  {
    MulDistribute(r, k * m, p);
    MulAssoc(k, m, p);
    MulAssoc(k, p, m);
    MulDistribute(q, -(k * p), m);
  }
}
