/** Fixed-window exponentiation in Montgomery form, HAC 14.82 (Mbed TLS's bignum_core.c). */
module ExpMod {
  import opened Arithmetic
  import opened Limbs
  import opened Montgomery
  import opened BignumCore
  import opened Montmul

  /** The Montgomery form of a power of the number whose Montgomery form is `a`. */
  function MontPower(a: nat, e: nat, m: nat, n: nat): nat
    requires m > 0
  {
    Mont(Power(FromMont(a, m, n), e), m, n)
  }

  lemma MontPowerAdd(a: nat, d: nat, e: nat, m: nat, n: nat)
    requires m % 2 == 1
    ensures MontMul(MontPower(a, d, m, n), MontPower(a, e, m, n), m, n) == MontPower(a, d + e, m, n)
  {
    var b := FromMont(a, m, n);
    PowerAdd(b, d, e);
    MontMulForms(Power(b, d), Power(b, e), m, n);
  }

  lemma MontPowerOne(a: nat, m: nat, n: nat)
    requires m % 2 == 1 && a < m
    ensures MontPower(a, 1, m, n) == a
    ensures MontPower(a, 0, m, n) == Mont(1, m, n)
  {
    var b := FromMont(a, m, n);
    assert Power(b, 1) == b * Power(b, 0) && Power(b, 0) == 1;
    MontInverse(a, m, n);
  }

  // ---------- the window table ----------

  /** Where entry `i` of a table of `n`-limb numbers starts. */
  function Slot(i: nat, n: nat): nat {
    MulPositive(i, n);
    i * n
  }

  lemma SlotNext(i: nat, n: nat)
    ensures Slot(i + 1, n) == Slot(i, n) + n
  {
    MulDistribute(i, 1, n);
  }

  lemma SlotBefore(i: nat, k: nat, n: nat)
    requires i < k
    ensures Slot(i, n) + n <= Slot(k, n)
  {
    SlotNext(i, n);
    MulMonotone(n, i + 1, k);
  }

  /** The first `k` entries of the table are the Montgomery forms of the powers of the base. */
  ghost predicate Powers(w: seq<Limb>, n: nat, k: nat, a: nat, m: nat)
    requires m > 0
  {
    && Slot(k, n) <= |w|
    && forall i: nat :: i < k ==> PowerAt(w, n, i, a, m)
  }

  ghost predicate PowerAt(w: seq<Limb>, n: nat, i: nat, a: nat, m: nat)
    requires m > 0
  {
    Slot(i, n) + n <= |w| && Value(w[Slot(i, n)..Slot(i, n) + n]) == MontPower(a, i, m, n)
  }

  /** Changes behind the first `k` entries keep them. */
  lemma PowersKept(w: seq<Limb>, w': seq<Limb>, n: nat, k: nat, a: nat, m: nat)
    requires m > 0 && Powers(w, n, k, a, m) && |w'| == |w|
    requires forall j :: 0 <= j < Slot(k, n) ==> w'[j] == w[j]
    ensures Powers(w', n, k, a, m)
  {
    hide Slot, Value, MontPower;
    forall i: nat | i < k
      ensures PowerAt(w', n, i, a, m)
    {
      SlotBefore(i, k, n);
      assert PowerAt(w, n, i, a, m);
      assert w'[Slot(i, n)..Slot(i, n) + n] == w[Slot(i, n)..Slot(i, n) + n];
    }
  }

  lemma PowersExtend(w: seq<Limb>, n: nat, k: nat, a: nat, m: nat)
    requires m > 0 && Powers(w, n, k, a, m) && PowerAt(w, n, k, a, m)
    ensures Powers(w, n, k + 1, a, m)
  {
    SlotNext(k, n);
  }

  lemma ValueOfOne(s: seq<Limb>)
    requires |s| > 0 && s[0] == 1 && forall i :: 1 <= i < |s| ==> s[i] == 0
    ensures Value(s) == 1
  {
    ValueLow(s);
    ValueZeros(s[1..]);
  }

  /** W[0] = 1 in Montgomery form. */
  method WindowZero(N: array<Limb>, n: nat, mm: Limb, RR: array<Limb>, T: array<Limb>, temp: nat, ghost a: nat)
    requires 0 < n <= N.Length && n <= RR.Length && T != N && T != RR
    requires n <= temp && temp + 2 * n + 1 <= T.Length
    requires Modulus(N[..n], mm) && Value(N[..n]) % 2 == 1 && a < Value(N[..n])
    requires Value(RR[..n]) == (PowR(n) * PowR(n)) % Value(N[..n])
    modifies T
    ensures Powers(T[..], n, 1, a, old(Value(N[..n])))
  {
    hide Value, MontPower, MontMul, PowR, Modulus;
    ghost var m, rr := N[..n], RR[..n];
    for k := 0 to n
      invariant forall j :: 0 <= j < k ==> T[j] == 0
    {
      T[k] := 0;
    }
    T[0] := 1;
    assert T[0..0 + n] == T[..n] && RR[0..0 + n] == rr && N[..n] == m;
    ValueOfOne(T[..n]);
    Montmul.Montmul(T, 0, T, 0, RR, 0, n, N, n, mm, T, temp);
    MontOne(Value(rr), Value(m), n);
    MontPowerOne(a, Value(m), n);
    assert Slot(0, n) == 0 && Slot(1, n) == n;
    assert PowerAt(T[..], n, 0, a, Value(m));
  }

  /** Copies `n` limbs. */
  method Copy(D: array<Limb>, dO: nat, S: array<Limb>, so: nat, n: nat)
    requires dO + n <= D.Length && so + n <= S.Length && D != S
    modifies D
    ensures D[dO..dO + n] == S[so..so + n]
    ensures OnlySpan(D, dO, n)
  {
    for k := 0 to n
      invariant forall j :: dO <= j < dO + k ==> D[j] == S[so + (j - dO)]
      invariant OnlySpan(D, dO, k)
    {
      D[dO + k] := S[so + k];
    }
  }

  /** W[1] = A, which is in Montgomery form already. */
  method WindowOne(A: array<Limb>, n: nat, T: array<Limb>, ghost m: nat)
    requires 0 < n <= A.Length && T != A && n + n <= T.Length
    requires m % 2 == 1 && Value(A[..n]) < m && Powers(T[..], n, 1, Value(A[..n]), m)
    modifies T
    ensures Powers(T[..], n, 2, old(Value(A[..n])), m)
  {
    hide Value, MontPower, Powers, PowerAt, Slot;
    ghost var a := Value(A[..n]);
    SlotZero(n);
    SlotNext(0, n);
    ghost var w := T[..];
    Copy(T, n, A, 0, n);
    PowersKept(w, T[..], n, 1, a, m);
    assert A[0..0 + n] == A[..n];
    assert T[..][n..n + n] == A[..n];
    OneIsPower(T[..], n, A[..n], m);
    PowersExtend(T[..], n, 1, a, m);
  }

  lemma OneIsPower(w: seq<Limb>, n: nat, a: seq<Limb>, m: nat)
    requires m % 2 == 1 && Value(a) < m && n + n <= |w| && w[n..n + n] == a
    ensures PowerAt(w, n, 1, Value(a), m)
  {
    MontPowerOne(Value(a), m, n);
  }

  /** Wtable[i] = A^i in Montgomery form, for i up to `welem`. */
  method PrecomputeWindow(A: array<Limb>, N: array<Limb>, n: nat, mm: Limb, RR: array<Limb>, welem: nat,
                          T: array<Limb>, temp: nat)
    requires 0 < n <= N.Length && n <= RR.Length && n <= A.Length && T != N && T != RR && T != A
    requires welem >= 2 && Slot(welem, n) <= temp && temp + 2 * n + 1 <= T.Length
    requires Modulus(N[..n], mm) && Value(N[..n]) % 2 == 1 && Value(A[..n]) < Value(N[..n])
    requires Value(RR[..n]) == (PowR(n) * PowR(n)) % Value(N[..n])
    modifies T
    ensures Powers(T[..], n, welem, old(Value(A[..n])), old(Value(N[..n])))
  {
    hide Value, MontPower, MontMul, PowR, Modulus, Slot, Powers, PowerAt;
    ghost var m, a := N[..n], Value(A[..n]);
    SlotBefore(0, 1, n);
    SlotBefore(1, welem, n);
    SlotNext(0, n);
    SlotNext(1, n);
    assert Slot(0, n) == 0 by { SlotZero(n); }
    WindowZero(N, n, mm, RR, T, temp, a);
    WindowOne(A, n, T, Value(m));
    var prev := n;
    for i := 2 to welem
      invariant prev == Slot(i - 1, n)
      invariant Powers(T[..], n, i, a, Value(m))
    {
      var cur := prev + n;
      NextPower(N, n, mm, T, temp, prev, i, a, welem);
      prev := cur;
      SlotNext(i - 1, n);
    }
  }

  lemma SlotZero(n: nat)
    ensures Slot(0, n) == 0
  {
  }

  /** W[i] = W[i - 1] * W[1]. */
  method NextPower(N: array<Limb>, n: nat, mm: Limb, T: array<Limb>, temp: nat, prev: nat, i: nat, ghost a: nat,
                   ghost welem: nat)
    requires 0 < n <= N.Length && T != N && 2 <= i < welem
    requires Slot(welem, n) <= temp && temp + 2 * n + 1 <= T.Length && prev == Slot(i - 1, n)
    requires Modulus(N[..n], mm) && Value(N[..n]) % 2 == 1 && a < Value(N[..n])
    requires Powers(T[..], n, i, a, Value(N[..n]))
    modifies T
    ensures Powers(T[..], n, i + 1, a, old(Value(N[..n])))
  {
    hide Value, MontPower, MontMul, PowR, Modulus, Slot;
    ghost var m := Value(N[..n]);
    SlotZero(n);
    SlotNext(0, n);
    SlotNext(i - 1, n);
    SlotBefore(i, welem, n);
    SlotBefore(1, i, n);
    assert PowerAt(T[..], n, 1, a, m) && PowerAt(T[..], n, i - 1, a, m);
    MontPowerOne(a, m, n);
    assert N[..n] == N[0..0 + n];
    ghost var w := T[..];
    Montmul.Montmul(T, prev + n, T, prev, T, n, n, N, n, mm, T, temp);
    PowersKept(w, T[..], n, i, a, m);
    MontPowerAdd(a, i - 1, 1, m, n);
    assert PowerAt(T[..], n, i, a, m);
    PowersExtend(T[..], n, i, a, m);
  }

  /** Copies entry `index` of the table, reading all `count` entries. */
  method TableLookup(T: array<Limb>, dest: nat, limbs: nat, count: nat, index: nat)
    requires index < count && Slot(index, limbs) + limbs <= Slot(count, limbs) <= dest && dest + limbs <= T.Length
    modifies T
    ensures T[dest..dest + limbs] == old(T[Slot(index, limbs)..Slot(index, limbs) + limbs])
    ensures OnlySpan(T, dest, limbs)
  {
    hide Slot;
    var table := 0;
    SlotZero(limbs);
    SlotBefore(index, count, limbs);
    for i := 0 to count
      invariant table == Slot(i, limbs)
      invariant i > index ==>
        T[dest..dest + limbs] == old(T[Slot(index, limbs)..Slot(index, limbs) + limbs])
      invariant OnlySpan(T, dest, limbs)
    {
      SlotBefore(i, count, limbs);
      SlotNext(i, limbs);
      assert forall k :: table <= k < table + limbs ==> T[k] == old(T[k]);
      assert T[table..table + limbs] == old(T[table..table + limbs]);
      CondAssign(T, dest, T, table, limbs, i == index);
      table := table + limbs;
    }
  }

  // ---------- the bits of the exponent ----------

  /** The exponent without its `r` lowest bits. */
  function Prefix(E: seq<Limb>, r: nat): nat {
    DivMod(Value(E), Pow2(r));
    Value(E) / Pow2(r)
  }

  /** Bit `b` of a limb. */
  function LimbBit(x: Limb, b: nat): (d: nat)
    ensures d < 2
  {
    (x / Pow2(b)) % 2
  }

  /** The prefix grows by one bit of one limb. */
  lemma NextBit(E: seq<Limb>, l: nat, b: nat)
    requires l < |E| && b < BIL
    ensures Prefix(E, BIL * l + b) == 2 * Prefix(E, BIL * l + b + 1) + LimbBit(E[l], b)
  {
    hide Pow2, Value, Limbs.Radix, LimbBit;
    var r, v := BIL * l + b, Value(E);
    BitOfValue(E, l, b);
    TwoStep(v, r);
  }

  lemma TwoStep(v: nat, r: nat)
    ensures v / Pow2(r) == 2 * (v / Pow2(r + 1)) + (v / Pow2(r)) % 2
  {
    assert Pow2(1) == 2 by { assert Pow2(0) == 1; }
    SplitBits(v, r, 1);
  }

  lemma BitOfValue(E: seq<Limb>, l: nat, b: nat)
    requires l < |E| && b < BIL
    ensures (Value(E) / Pow2(BIL * l + b)) % 2 == LimbBit(E[l], b)
  {
    hide Pow2, Value, PowR, LimbBit;
    var low, x, rest := Value(E[..l]), E[l], Value(E[l + 1..]);
    ValueAppend(E[..l], E[l..]);
    assert E == E[..l] + E[l..] && E[l..][1..] == E[l + 1..];
    ValueLow(E[l..]);
    ValueBound(E[..l]);
    PowRIsPow2(l);
    var y := x + Radix() * rest;
    assert Value(E) == y * Pow2(BIL * l) + low;
    SplitBits(Value(E), BIL * l, b);
    DivModUnique(Value(E), Pow2(BIL * l), y, low);
    BitOfLimb(x, rest, b, y);
  }

  lemma BitOfLimb(x: Limb, rest: nat, b: nat, y: nat)
    requires b < BIL && y == x + Radix() * rest
    ensures (y / Pow2(b)) % 2 == LimbBit(x, b)
  {
    var half, p := Pow2(BIL - b - 1), Pow2(b);
    Pow2Add(BIL - b, b);
    assert Radix() == (2 * half) * p;
    hide Pow2, Limbs.Radix;
    Regroup(half, p, rest);
    ModOfSum(x, (half * rest) * 2, p);
    ModOfSum(x / p, half * rest, 2);
  }

  lemma Regroup(half: nat, p: nat, rest: nat)
    ensures ((2 * half) * p) * rest == ((half * rest) * 2) * p
  {
    MulAssoc(2 * half, p, rest);
    MulAssoc(2 * half, rest, p);
    MulAssoc(2, half, rest);
  }

  // ---------- the main loop ----------

  /** The window size for an exponent of `bits` bits, when the library is built with a maximum. */
  function WindowSize(bits: nat, maximum: nat): (w: nat)
    requires maximum >= 1
    ensures 1 <= w <= maximum
  {
    var w := if bits > 671 then 6 else if bits > 239 then 5 else if bits > 79 then 4 else 1;
    if w > maximum then maximum else w
  }

  /** The working memory for a window size: the table, the selected entry and the product. */
  function WorkingLimbs(n: nat, wsize: nat): nat {
    Slot(Pow2(wsize), n) + n + (2 * n + 1)
  }

  /** RR = R^2 mod N, where R is the radix to the number of limbs. */
  predicate RadixSquare(rr: seq<Limb>, m: seq<Limb>) {
    Value(m) > 0 && (MulPositive(PowR(|m|), PowR(|m|)); Value(rr) == (PowR(|m|) * PowR(|m|)) % Value(m))
  }

  function Shifted(q: nat, bits: nat): nat {
    MulPositive(q, Pow2(bits));
    q * Pow2(bits)
  }

  /**
    `r` bits of the exponent remain; the bits before them are `q` followed by the
    `bits` bits of the window, and X holds the power for `q` followed by zeros.
   */
  ghost predicate Progress(e: seq<Limb>, r: nat, bits: nat, window: nat, q: nat, x: seq<Limb>, a: nat, m: nat)
    requires m > 0
  {
    && Prefix(e, r) == Shifted(q, bits) + window && window < Pow2(bits)
    && Value(x) == MontPower(a, Shifted(q, bits), m, |x|)
  }

  lemma StartProgress(e: seq<Limb>, x: seq<Limb>, a: nat, m: nat)
    requires m > 0 && Value(x) == MontPower(a, 0, m, |x|)
    ensures Progress(e, BIL * |e|, 0, 0, 0, x, a, m)
  {
    hide Value, MontPower;
    ValueBound(e);
    PowRIsPow2(|e|);
    DivModUnique(Value(e), Pow2(BIL * |e|), 0, Value(e));
  }

  /** Squaring and taking in the next bit. */
  lemma StepProgress(e: seq<Limb>, l: nat, b: nat, bits: nat, window: nat, q: nat, x: seq<Limb>, x': seq<Limb>,
                     a: nat, m: nat)
    requires m % 2 == 1 && l < |e| && b < BIL && |x| == |x'|
    requires Progress(e, BIL * l + b + 1, bits, window, q, x, a, m)
    requires Value(x') == MontMul(Value(x), Value(x), m, |x|)
    ensures Progress(e, BIL * l + b, bits + 1, 2 * window + LimbBit(e[l], b), q, x', a, m)
  {
    hide Value, MontPower, MontMul, Prefix, LimbBit;
    NextBit(e, l, b);
    MulAssoc(q, 2, Pow2(bits));
    assert Shifted(q, bits) + Shifted(q, bits) == Shifted(q, bits + 1) by {
      MulAssoc(q, Pow2(bits), 2);
    }
    MontPowerAdd(a, Shifted(q, bits), Shifted(q, bits), m, |x|);
  }

  lemma EndProgress(e: seq<Limb>, q: nat, x: seq<Limb>, a: nat, m: nat)
    requires m > 0 && Progress(e, 0, 0, 0, q, x, a, m)
    ensures Value(x) == MontPower(a, Value(e), m, |x|)
  {
    hide Value, MontPower;
    assert Pow2(0) == 1;
  }

  lemma MontPowerSmall(a: nat, e: nat, m: nat, n: nat)
    requires m > 0
    ensures MontPower(a, e, m, n) < m
  {
    hide Power, FromMont;
    DivMod(Power(FromMont(a, m, n), e) * PowR(n), m);
  }

  /** Multiplies X with entry `window` of the table. */
  method MultiplySelected(X: array<Limb>, N: array<Limb>, n: nat, mm: Limb, T: array<Limb>, welem: nat, window: nat,
                          ghost a: nat)
    requires 0 < n <= N.Length && n <= X.Length && T != N && T != X && X != N
    requires Slot(welem, n) + n + (2 * n + 1) <= T.Length && window < welem
    requires Modulus(N[..n], mm) && Value(N[..n]) % 2 == 1
    requires Powers(T[..], n, welem, a, Value(N[..n]))
    modifies X, T
    ensures Powers(T[..], n, welem, a, old(Value(N[..n])))
    ensures Value(X[..n]) ==
            MontMul(old(Value(X[..n])), MontPower(a, window, old(Value(N[..n])), n), old(Value(N[..n])), n)
  {
    hide Value, MontPower, MontMul, PowR, Modulus, Slot;
    ghost var m, w, x := N[..n], T[..], X[..n];
    var sel := Slot(welem, n);
    SlotBefore(window, welem, n);
    assert PowerAt(w, n, window, a, Value(m));
    MontPowerSmall(a, window, Value(m), n);
    TableLookup(T, sel, n, welem, window);
    PowersKept(w, T[..], n, welem, a, Value(m));
    assert T[sel..sel + n] == w[Slot(window, n)..Slot(window, n) + n];
    assert N[..n] == m && X[0..0 + n] == x;
    ghost var w' := T[..];
    Montmul.Montmul(X, 0, X, 0, T, sel, n, N, n, mm, T, sel + n);
    PowersKept(w', T[..], n, welem, a, Value(m));
    assert X[0..0 + n] == X[..n];
  }

  /** Squares X. */
  method Square(X: array<Limb>, N: array<Limb>, n: nat, mm: Limb, T: array<Limb>, temp: nat,
                ghost welem: nat, ghost a: nat)
    requires 0 < n <= N.Length && n <= X.Length && T != N && T != X && X != N
    requires Slot(welem, n) <= temp && temp + 2 * n + 1 <= T.Length
    requires Modulus(N[..n], mm) && Value(X[..n]) < Value(N[..n])
    requires Powers(T[..], n, welem, a, Value(N[..n]))
    modifies X, T
    ensures Powers(T[..], n, welem, a, old(Value(N[..n])))
    ensures Value(X[..n]) == MontMul(old(Value(X[..n])), old(Value(X[..n])), old(Value(N[..n])), n)
  {
    hide Value, MontPower, MontMul, PowR, Modulus, Slot;
    ghost var m, w := N[..n], T[..];
    assert X[0..0 + n] == X[..n];
    Montmul.Montmul(X, 0, X, 0, X, 0, n, N, n, mm, T, temp);
    PowersKept(w, T[..], n, welem, a, Value(m));
    assert X[0..0 + n] == X[..n];
  }

  /** The loop over the exponent's bits, most significant bit first, for any window size. */
  method Exponentiate(X: array<Limb>, N: array<Limb>, n: nat, mm: Limb, E: array<Limb>, eLimbs: nat,
                      T: array<Limb>, wsize: nat, ghost a: nat)
    requires 0 < n <= N.Length && n <= X.Length && 0 < eLimbs <= E.Length && wsize >= 1
    requires T != N && T != X && T != E && X != N && X != E
    requires WorkingLimbs(n, wsize) <= T.Length
    requires Modulus(N[..n], mm) && Value(N[..n]) % 2 == 1
    requires Powers(T[..], n, Pow2(wsize), a, Value(N[..n]))
    requires Value(X[..n]) == MontPower(a, 0, Value(N[..n]), n)
    modifies X, T
    ensures Value(X[..n]) == MontPower(a, old(Value(E[..eLimbs])), old(Value(N[..n])), n)
  {
    hide Value, MontPower, MontMul, PowR, Modulus, Slot, Powers, Progress, Pow2, Limbs.Radix, LimbBit;
    ghost var m, e := N[..n], E[..eLimbs];
    var welem := Pow2(wsize);
    var limb, bit: nat := eLimbs, 0;
    var bits: nat, window: nat := 0, 0;
    ghost var q: nat := 0;
    StartProgress(e, X[..n], a, Value(m));
    PowZero();
    while true
      invariant limb <= eLimbs && bit < BIL && (limb == eLimbs ==> bit == 0) && (limb > 0 || bit > 0)
      invariant bits < wsize
      invariant N[..n] == m && E[..eLimbs] == e
      invariant Powers(T[..], n, welem, a, Value(m))
      invariant Progress(e, BIL * limb + bit, bits, window, q, X[..n], a, Value(m))
      decreases limb, bit
    {
      ghost var x := X[..n];
      ProgressSmall(e, BIL * limb + bit, bits, window, q, x, a, Value(m));
      Square(X, N, n, mm, T, Slot(welem, n) + n, welem, a);
      assert N[..n] == m && E[..eLimbs] == e;
      if bit == 0 {
        limb := limb - 1;
        bit := BIL - 1;
      } else {
        bit := bit - 1;
      }
      StepProgress(e, limb, bit, bits, window, q, x, X[..n], a, Value(m));
      bits := bits + 1;
      window := 2 * window + LimbBit(E[limb], bit);
      if bits == wsize || (bit == 0 && limb == 0) {
        x := X[..n];
        WindowInTable(e, BIL * limb + bit, bits, window, q, x, a, Value(m), wsize);
        MultiplySelected(X, N, n, mm, T, welem, window, a);
        assert N[..n] == m && E[..eLimbs] == e;
        FlushProgress(e, BIL * limb + bit, bits, window, q, x, X[..n], a, Value(m));
        q := Prefix(e, BIL * limb + bit);
        window := 0;
        bits := 0;
      }
      if bit == 0 && limb == 0 {
        break;
      }
    }
    EndProgress(e, q, X[..n], a, Value(m));
  }

  lemma PowZero()
    ensures Pow2(0) == 1
  {
  }

  lemma ProgressSmall(e: seq<Limb>, r: nat, bits: nat, window: nat, q: nat, x: seq<Limb>, a: nat, m: nat)
    requires m > 0 && Progress(e, r, bits, window, q, x, a, m)
    ensures Value(x) < m
  {
    MontPowerSmall(a, Shifted(q, bits), m, |x|);
  }

  lemma WindowInTable(e: seq<Limb>, r: nat, bits: nat, window: nat, q: nat, x: seq<Limb>, a: nat, m: nat, wsize: nat)
    requires m > 0 && Progress(e, r, bits, window, q, x, a, m) && bits <= wsize
    ensures window < Pow2(wsize)
  {
    Pow2Monotone(bits, wsize);
  }

  /** Multiplying with the power for the window empties the window. */
  lemma FlushProgress(e: seq<Limb>, r: nat, bits: nat, window: nat, q: nat, x: seq<Limb>, x': seq<Limb>, a: nat, m: nat)
    requires m % 2 == 1 && |x| == |x'|
    requires Progress(e, r, bits, window, q, x, a, m)
    requires Value(x') == MontMul(Value(x), MontPower(a, window, m, |x|), m, |x|)
    ensures Progress(e, r, 0, 0, Prefix(e, r), x', a, m)
  {
    hide Value, MontPower, MontMul, Prefix;
    MontPowerAdd(a, Shifted(q, bits), window, m, |x|);
    assert Shifted(Prefix(e, r), 0) == Prefix(e, r) by { PowZero(); }
  }

  /**
    X = A^E mod N for A and X in Montgomery form, with a window of at most `maximum` bits.
    RR is the square of the Montgomery radix modulo N.
   */
  method ExpModWindow(X: array<Limb>, A: array<Limb>, N: array<Limb>, n: nat, E: array<Limb>, eLimbs: nat,
                      RR: array<Limb>, T: array<Limb>, wsize: nat)
    requires 0 < n <= N.Length && n <= X.Length && n <= A.Length && n <= RR.Length && 0 < eLimbs <= E.Length
    requires T != N && T != X && T != E && T != A && T != RR && X != N && X != E
    requires N[0] % 2 == 1 && wsize >= 1 && WorkingLimbs(n, wsize) <= T.Length
    requires Value(A[..n]) < Value(N[..n])
    requires RadixSquare(RR[..n], N[..n])
    modifies X, T
    ensures Value(X[..n]) == Mont(Power(FromMont(old(Value(A[..n])), old(Value(N[..n])), n), old(Value(E[..eLimbs]))),
                                  old(Value(N[..n])), n)
  {
    hide Value, MontMul, PowR, Slot, Powers, Pow2, Limbs.Radix;
    ghost var m, e, a := N[..n], E[..eLimbs], Value(A[..n]);
    OddValue(m);
    var welem := Pow2(wsize);
    PowAtLeast2(wsize);
    SlotBefore(0, welem, n);
    SlotZero(n);
    var mm := MontmulInit(N);
    PrecomputeWindow(A, N, n, mm, RR, welem, T, Slot(welem, n) + n);
    ghost var w := T[..];
    Copy(X, 0, T, 0, n);
    assert N[..n] == m && E[..eLimbs] == e;
    FirstPower(w, n, welem, a, Value(m));
    assert X[..n] == X[0..0 + n] == w[..n];
    assert T[..] == w;
    Exponentiate(X, N, n, mm, E, eLimbs, T, wsize, a);
  }

  lemma PowAtLeast2(k: nat)
    requires k >= 1
    ensures Pow2(k) >= 2
  {
  }

  lemma FirstPower(w: seq<Limb>, n: nat, k: nat, a: nat, m: nat)
    requires m > 0 && k > 0 && Powers(w, n, k, a, m)
    ensures n <= |w| && Value(w[..n]) == MontPower(a, 0, m, n)
  {
    assert PowerAt(w, n, 0, a, m);
    assert Slot(0, n) == 0;
  }

  /** X = A^E mod N with the window size that the library chooses for the size of E. */
  method ExpMod(X: array<Limb>, A: array<Limb>, N: array<Limb>, n: nat, E: array<Limb>, eLimbs: nat,
                RR: array<Limb>, T: array<Limb>, maximum: nat)
    requires 0 < n <= N.Length && n <= X.Length && n <= A.Length && n <= RR.Length && 0 < eLimbs <= E.Length
    requires T != N && T != X && T != E && T != A && T != RR && X != N && X != E
    requires N[0] % 2 == 1 && maximum >= 1 && WorkingLimbs(n, WindowSize(BIL * eLimbs, maximum)) <= T.Length
    requires Value(A[..n]) < Value(N[..n])
    requires RadixSquare(RR[..n], N[..n])
    modifies X, T
    ensures Value(X[..n]) == Mont(Power(FromMont(old(Value(A[..n])), old(Value(N[..n])), n), old(Value(E[..eLimbs]))),
                                  old(Value(N[..n])), n)
  {
    hide Value, PowR, Slot, Power, Mont, FromMont;
    ExpModWindow(X, A, N, n, E, eLimbs, RR, T, WindowSize(BIL * eLimbs, maximum));
  }
}
