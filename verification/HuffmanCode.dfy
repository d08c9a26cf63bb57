/**
  The canonical Huffman code of a vector of code lengths (section 3.2.2 of RFC 1951).

  A code of length `l` is identified with an interval of the 15-bit numbers: the numbers
  whose leading `l` bits are the codeword.  The intervals of the coded symbols are laid
  out one after the other, by length and then by symbol.
 */
module HuffmanCode {
  import opened Arithmetic

  const MAXBITS: nat := 15

  predicate ValidLengths(lens: seq<nat>) {
    forall i :: 0 <= i < |lens| ==> lens[i] <= MAXBITS
  }

  /** How many of the first `n` symbols have length `l`. */
  function Count(lens: seq<nat>, l: nat, n: nat): (c: nat)
    requires n <= |lens|
    ensures c <= n
  {
    if n == 0 then 0 else Count(lens, l, n - 1) + if lens[n - 1] == l then 1 else 0
  }

  function Total(lens: seq<nat>, l: nat): nat {
    Count(lens, l, |lens|)
  }

  /** The part of the 15-bit numbers that one codeword of length `l` takes. */
  function Unit(l: nat): nat
    requires l <= MAXBITS
  {
    Pow2(MAXBITS - l)
  }

  /** What the codes shorter than `l` take. */
  function Below(lens: seq<nat>, l: nat): nat
    requires 1 <= l <= MAXBITS + 1
  {
    if l == 1 then 0 else Below(lens, l - 1) + Total(lens, l - 1) * Unit(l - 1)
  }

  /** The Kraft sum, scaled by 2^15. */
  function Kraft(lens: seq<nat>): nat {
    Below(lens, MAXBITS + 1)
  }

  predicate Coded(lens: seq<nat>, s: nat) {
    s < |lens| && 1 <= lens[s] <= MAXBITS
  }

  function Start(lens: seq<nat>, s: nat): nat
    requires Coded(lens, s)
  {
    Below(lens, lens[s]) + Count(lens, lens[s], s) * Unit(lens[s])
  }

  /** The 15-bit number `v` starts with the codeword of `s`. */
  predicate Covers(lens: seq<nat>, s: nat, v: nat) {
    Coded(lens, s) && Start(lens, s) <= v < Start(lens, s) + Unit(lens[s])
  }

  /** The smallest codeword of length `l`, by the recurrence of section 3.2.2 of RFC 1951. */
  function FirstCode(lens: seq<nat>, l: nat): nat
    requires 1 <= l <= MAXBITS
  {
    if l == 1 then 0 else 2 * (FirstCode(lens, l - 1) + Total(lens, l - 1))
  }

  function Codeword(lens: seq<nat>, s: nat): nat
    requires Coded(lens, s)
  {
    FirstCode(lens, lens[s]) + Count(lens, lens[s], s)
  }

  /** The codeword in the order in which its bits are sent, first bit lowest. */
  function SentCode(lens: seq<nat>, s: nat): nat
    requires Coded(lens, s)
  {
    Reverse(lens[s], Codeword(lens, s))
  }

  // ---------- counting ----------

  lemma {:induction false} CountMonotone(lens: seq<nat>, l: nat, m: nat, n: nat)
    requires m <= n <= |lens|
    ensures Count(lens, l, m) <= Count(lens, l, n)
  {
    if m < n {
      CountMonotone(lens, l, m, n - 1);
    }
  }

  lemma CountStrict(lens: seq<nat>, s: nat, n: nat)
    requires s < n <= |lens|
    ensures Count(lens, lens[s], s) < Count(lens, lens[s], n)
  {
    CountMonotone(lens, lens[s], s + 1, n);
  }

  /** The `r`-th symbol of length `l` exists whenever there are more than `r` of them. */
  lemma {:induction false} NthSymbol(lens: seq<nat>, l: nat, r: nat, n: nat) returns (s: nat)
    requires n <= |lens| && r < Count(lens, l, n)
    ensures s < n && lens[s] == l && Count(lens, l, s) == r
  {
    if lens[n - 1] == l && Count(lens, l, n - 1) == r {
      s := n - 1;
    } else {
      s := NthSymbol(lens, l, r, n - 1);
    }
  }

  // ---------- the layout of the intervals ----------

  lemma UnitDouble(l: nat)
    requires 1 <= l <= MAXBITS
    ensures Unit(l - 1) == 2 * Unit(l)
  {
  }

  lemma UnitRatio(m: nat, l: nat)
    requires m <= l <= MAXBITS
    ensures Unit(m) == Pow2(l - m) * Unit(l)
    ensures Unit(l) <= Unit(m)
  {
    Pow2Add(l - m, MAXBITS - l);
    MulMonotone(Unit(l), 1, Pow2(l - m));
  }

  lemma {:induction false} BelowMonotone(lens: seq<nat>, m: nat, l: nat)
    requires 1 <= m <= l <= MAXBITS + 1
    ensures Below(lens, m) <= Below(lens, l)
  {
    if m < l {
      BelowMonotone(lens, m, l - 1);
      MulPositive(Total(lens, l - 1), Unit(l - 1));
    }
  }

  /** The codeword recurrence and the interval layout agree. */
  lemma {:induction false} FirstCodeIsBelow(lens: seq<nat>, l: nat)
    requires 1 <= l <= MAXBITS
    ensures FirstCode(lens, l) * Unit(l) == Below(lens, l)
  {
    if l == 1 {
    } else {
      FirstCodeIsBelow(lens, l - 1);
      var f, c, u := FirstCode(lens, l - 1), Total(lens, l - 1), Unit(l);
      UnitDouble(l);
      MulDistribute(f, c, 2 * u);
      MulAssoc(f + c, 2, u);
    }
  }

  lemma StartIsCodeword(lens: seq<nat>, s: nat)
    requires Coded(lens, s)
    ensures Start(lens, s) == Codeword(lens, s) * Unit(lens[s])
  {
    FirstCodeIsBelow(lens, lens[s]);
    MulDistribute(FirstCode(lens, lens[s]), Count(lens, lens[s], s), Unit(lens[s]));
  }

  /** Codes of one length end where the next length begins. */
  lemma IntervalEnd(lens: seq<nat>, s: nat)
    requires Coded(lens, s)
    ensures Below(lens, lens[s]) <= Start(lens, s)
    ensures Start(lens, s) + Unit(lens[s]) <= Below(lens, lens[s] + 1)
    ensures Start(lens, s) + Unit(lens[s]) <= Kraft(lens)
  {
    var l, r := lens[s], Count(lens, lens[s], s);
    CountStrict(lens, s, |lens|);
    MulPositive(r, Unit(l));
    MulDistribute(r, 1, Unit(l));
    MulMonotone(Unit(l), r + 1, Total(lens, l));
    BelowMonotone(lens, l + 1, MAXBITS + 1);
  }

  lemma IntervalOrder(lens: seq<nat>, s: nat, t: nat)
    requires Coded(lens, s) && Coded(lens, t)
    requires lens[s] < lens[t] || (lens[s] == lens[t] && s < t)
    ensures Start(lens, s) + Unit(lens[s]) <= Start(lens, t)
  {
    IntervalEnd(lens, s);
    IntervalEnd(lens, t);
    if lens[s] < lens[t] {
      BelowMonotone(lens, lens[s] + 1, lens[t]);
    } else {
      var r, u := Count(lens, lens[s], s), Unit(lens[s]);
      CountStrict(lens, s, t);
      MulDistribute(r, 1, u);
      MulMonotone(u, r + 1, Count(lens, lens[t], t));
    }
  }

  /** The code is prefix free: no number starts with two codewords. */
  lemma PrefixFree(lens: seq<nat>, s: nat, t: nat, v: nat)
    requires Covers(lens, s, v) && Covers(lens, t, v)
    ensures s == t
  {
    if lens[s] < lens[t] || (lens[s] == lens[t] && s < t) {
      IntervalOrder(lens, s, t);
    } else if s != t {
      IntervalOrder(lens, t, s);
    }
  }

  /** In a code that is not over-subscribed a codeword fits its length. */
  lemma CodewordFits(lens: seq<nat>, s: nat)
    requires Coded(lens, s) && Kraft(lens) <= Pow2(MAXBITS)
    ensures Codeword(lens, s) < Pow2(lens[s])
  {
    var c, u, l := Codeword(lens, s), Unit(lens[s]), lens[s];
    StartIsCodeword(lens, s);
    IntervalEnd(lens, s);
    Pow2Add(l, MAXBITS - l);
    if c >= Pow2(l) {
      MulMonotone(u, Pow2(l), c);
    }
  }

  /** A number below the Kraft sum starts with the codeword of some symbol. */
  lemma {:induction false} SomeSymbol(lens: seq<nat>, l: nat, v: nat) returns (s: nat)
    requires 1 <= l <= MAXBITS + 1 && v < Below(lens, l)
    ensures Covers(lens, s, v) && lens[s] < l
  {
    if v < Below(lens, l - 1) {
      s := SomeSymbol(lens, l - 1, v);
    } else {
      var u, b := Unit(l - 1), Below(lens, l - 1);
      var r := (v - b) / u;
      DivMod(v - b, u);
      if r >= Total(lens, l - 1) {
        MulMonotone(u, Total(lens, l - 1), r);
      }
      s := NthSymbol(lens, l - 1, r, |lens|);
    }
  }

  // ---------- sent bits ----------

  function Rev15(w: nat): (r: nat)
    ensures r < Pow2(MAXBITS)
  {
    Reverse(MAXBITS, w)
  }

  lemma Rev15Split(b: nat, lo: nat, hi: nat, w: nat)
    requires b <= MAXBITS && lo < Pow2(b) && w == hi * Pow2(b) + lo
    ensures Rev15(w) == Reverse(b, lo) * Unit(b) + Reverse(MAXBITS - b, hi)
    ensures Reverse(MAXBITS - b, hi) < Unit(b)
  {
    hide Reverse, Pow2;
    ReverseSplit(b, MAXBITS - b, lo, hi);
  }

  /** A word starts with the sent bits of `s` exactly when its reversal lies in the interval of `s`. */
  lemma SentCodeCovers(lens: seq<nat>, s: nat, w: nat)
    requires Coded(lens, s) && Kraft(lens) <= Pow2(MAXBITS)
    ensures Covers(lens, s, Rev15(w)) <==> w % Pow2(lens[s]) == SentCode(lens, s)
  {
    DivMod(w, Pow2(lens[s]));
    LowBitsCover(lens, s, w % Pow2(lens[s]), w / Pow2(lens[s]), w);
  }

  lemma LowBitsCover(lens: seq<nat>, s: nat, lo: nat, hi: nat, w: nat)
    requires Coded(lens, s) && Kraft(lens) <= Pow2(MAXBITS)
    requires lo < Pow2(lens[s]) && w == hi * Pow2(lens[s]) + lo
    ensures Covers(lens, s, Rev15(w)) <==> lo == SentCode(lens, s)
  {
    var l := lens[s];
    Rev15Split(l, lo, hi, w);
    StartIsCodeword(lens, s);
    SameMultiple(Codeword(lens, s), Reverse(l, lo), Reverse(MAXBITS - l, hi), Unit(l));
    CodewordFits(lens, s);
    ReverseInvolution(l, Codeword(lens, s));
    ReverseInvolution(l, lo);
  }

  lemma SameMultiple(c: nat, q: nat, r: nat, u: nat)
    requires r < u
    ensures c * u <= q * u + r < c * u + u <==> c == q
  {
    if c < q {
      MulMonotone(u, c + 1, q);
    } else if c > q {
      MulMonotone(u, q + 1, c);
    }
  }

  lemma Rev15Low(w: nat)
    ensures Rev15(w % Pow2(MAXBITS)) == Rev15(w)
  {
    ReverseLow(MAXBITS, w);
  }

  /** The low `b` bits of a word are the leading bits of its reversal. */
  lemma LeadingBits(b: nat, w: nat)
    requires b <= MAXBITS
    ensures Rev15(w % Pow2(b)) == (Rev15(w) / Unit(b)) * Unit(b)
    ensures Rev15(w) / Unit(b) == Reverse(b, w)
  {
    DivMod(w, Pow2(b));
    ReverseLow(b, w);
    LeadingBitsOf(b, w % Pow2(b), w / Pow2(b), w);
  }

  lemma LeadingBitsOf(b: nat, lo: nat, hi: nat, w: nat)
    requires b <= MAXBITS && lo < Pow2(b) && w == hi * Pow2(b) + lo
    ensures Rev15(w) / Unit(b) == Reverse(b, lo)
    ensures Rev15(lo) == (Rev15(w) / Unit(b)) * Unit(b)
  {
    Rev15Split(b, lo, hi, w);
    DivModUnique(Rev15(w), Unit(b), Reverse(b, lo), Reverse(MAXBITS - b, hi));
    ShortWord(b, lo);
  }

  lemma ShortWord(b: nat, w: nat)
    requires b <= MAXBITS && w < Pow2(b)
    ensures Rev15(w) == Reverse(b, w) * Unit(b)
  {
    Rev15Split(b, w, 0, w);
    ReverseZero(MAXBITS - b);
  }
}
