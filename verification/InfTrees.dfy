/** The loops of inflate_table (zlib's inftrees.c). */
module InfTrees {
  import opened Arithmetic
  import opened HuffmanCode
  import opened DecodingTable

  // ---------- sorting the symbols by code length ----------

  /** How many of the first `n` symbols have a code shorter than `l`. */
  function Shorter(lens: seq<nat>, l: nat, n: nat): nat
    requires n <= |lens| && 1 <= l
  {
    if l == 1 then 0 else Shorter(lens, l - 1, n) + Count(lens, l - 1, n)
  }

  /** The place of symbol `s` in the order by code length and then by symbol. */
  function Place(lens: seq<nat>, s: nat): nat
    requires Coded(lens, s)
  {
    Shorter(lens, lens[s], |lens|) + Count(lens, lens[s], s)
  }

  ghost predicate Sorted(lens: seq<nat>, work: seq<nat>) {
    forall s: nat :: Coded(lens, s) ==> Place(lens, s) < |work| && work[Place(lens, s)] == s
  }

  lemma {:induction false} ShorterMonotone(lens: seq<nat>, k: nat, l: nat)
    requires 1 <= k <= l
    ensures Shorter(lens, k, |lens|) <= Shorter(lens, l, |lens|)
  {
    if k < l {
      ShorterMonotone(lens, k, l - 1);
    }
  }

  /** One more symbol adds at most one to the number of symbols with a short code. */
  lemma {:induction false} ShorterStep(lens: seq<nat>, l: nat, n: nat)
    requires n < |lens| && 1 <= l
    ensures Shorter(lens, l, n + 1) == Shorter(lens, l, n) + if 1 <= lens[n] < l then 1 else 0
  {
    if l > 1 {
      ShorterStep(lens, l - 1, n);
    }
  }

  lemma {:induction false} ShorterBound(lens: seq<nat>, l: nat, n: nat)
    requires n <= |lens| && 1 <= l
    ensures Shorter(lens, l, n) <= n
  {
    if n > 0 {
      ShorterBound(lens, l, n - 1);
      ShorterStep(lens, l, n - 1);
    } else if l > 1 {
      ShorterBound(lens, l - 1, 0);
    }
  }

  lemma PlaceBound(lens: seq<nat>, s: nat)
    requires Coded(lens, s)
    ensures Place(lens, s) < Shorter(lens, lens[s] + 1, |lens|) <= |lens|
  {
    CountStrict(lens, s, |lens|);
    ShorterBound(lens, lens[s] + 1, |lens|);
  }

  lemma PlaceDistinct(lens: seq<nat>, s: nat, t: nat)
    requires Coded(lens, s) && Coded(lens, t) && s != t
    ensures Place(lens, s) != Place(lens, t)
  {
    PlaceBound(lens, s);
    PlaceBound(lens, t);
    if lens[s] < lens[t] {
      ShorterMonotone(lens, lens[s] + 1, lens[t]);
    } else if lens[s] > lens[t] {
      ShorterMonotone(lens, lens[t] + 1, lens[s]);
    } else if s < t {
      CountStrict(lens, s, t);
    } else {
      CountStrict(lens, t, s);
    }
  }

  method CountLengths(lens: seq<nat>) returns (count: array<nat>)
    requires ValidLengths(lens)
    ensures fresh(count) && count.Length == MAXBITS + 1
    ensures forall l :: 0 <= l <= MAXBITS ==> count[l] == Total(lens, l)
  {
    count := new nat[MAXBITS + 1](_ => 0);
    for sym := 0 to |lens|
      invariant forall l :: 0 <= l <= MAXBITS ==> count[l] == Count(lens, l, sym)
    {
      count[lens[sym]] := count[lens[sym]] + 1;
    }
  }

  method Offsets(lens: seq<nat>, count: array<nat>) returns (offs: array<nat>)
    requires count.Length == MAXBITS + 1
    requires forall l :: 0 <= l <= MAXBITS ==> count[l] == Total(lens, l)
    ensures fresh(offs) && offs.Length == MAXBITS + 1
    ensures forall l :: 1 <= l <= MAXBITS ==> offs[l] == Shorter(lens, l, |lens|)
  {
    offs := new nat[MAXBITS + 1](_ => 0);
    for len := 1 to MAXBITS
      invariant forall l :: 1 <= l <= len ==> offs[l] == Shorter(lens, l, |lens|)
    {
      offs[len + 1] := offs[len] + count[len];
    }
  }

  /** The first `n` symbols are in place. */
  ghost predicate SortedTo(lens: seq<nat>, work: seq<nat>, n: nat) {
    forall s: nat :: s < n && Coded(lens, s) ==> Place(lens, s) < |work| && work[Place(lens, s)] == s
  }

  lemma SortedNone(lens: seq<nat>, work: seq<nat>)
    requires |lens| <= |work|
    ensures SortedTo(lens, work, 0)
  {
  }

  lemma SortedAll(lens: seq<nat>, work: seq<nat>)
    requires SortedTo(lens, work, |lens|)
    ensures Sorted(lens, work)
  {
    hide Place;
  }

  lemma SortedSkip(lens: seq<nat>, work: seq<nat>, n: nat)
    requires SortedTo(lens, work, n) && n < |lens| && lens[n] == 0
    ensures SortedTo(lens, work, n + 1)
  {
    hide Place;
  }

  lemma PlaceNext(lens: seq<nat>, work: seq<nat>, n: nat)
    requires SortedTo(lens, work, n) && Coded(lens, n) && |lens| <= |work|
    ensures Place(lens, n) < |work|
    ensures SortedTo(lens, work[Place(lens, n) := n], n + 1)
  {
    PlaceBound(lens, n);
    forall s: nat | s < n && Coded(lens, s)
      ensures Place(lens, s) != Place(lens, n)
    {
      PlaceDistinct(lens, s, n);
    }
  }

  method SortSymbols(lens: seq<nat>, count: array<nat>, work: array<nat>)
    requires ValidLengths(lens) && count.Length == MAXBITS + 1 && count != work
    requires forall l :: 0 <= l <= MAXBITS ==> count[l] == Total(lens, l)
    requires work.Length >= |lens|
    modifies work
    ensures Sorted(lens, work[..])
  {
    hide Shorter, Count, SortedTo, Pow2;
    var offs := Offsets(lens, count);
    SortedNone(lens, work[..]);
    for sym := 0 to |lens|
      invariant forall l :: 1 <= l <= MAXBITS ==> offs[l] == Shorter(lens, l, |lens|) + Count(lens, l, sym)
      invariant SortedTo(lens, work[..], sym)
    {
      var l := lens[sym];
      CountOne(lens, sym);
      if l != 0 {
        ghost var w := work[..];
        PlaceNext(lens, w, sym);
        work[offs[l]] := sym;
        assert work[..] == w[Place(lens, sym) := sym];
        offs[l] := offs[l] + 1;
      } else {
        SortedSkip(lens, work[..], sym);
      }
    }
    SortedAll(lens, work[..]);
  }

  lemma CountOne(lens: seq<nat>, n: nat)
    requires n < |lens|
    ensures forall l: nat :: Count(lens, l, n + 1) == Count(lens, l, n) + if l == lens[n] then 1 else 0
  {
  }

  // ---------- the backwards increment ----------

  /** The highest of `b` bits is the lowest of the reversed bits. */
  lemma TopBit(b: nat, low: nat, bit: nat)
    requires bit < 2 && low < Pow2(b)
    ensures bit * Pow2(b) + low < Pow2(b + 1)
    ensures Reverse(b + 1, bit * Pow2(b) + low) == 2 * Reverse(b, low) + bit
  {
    ReverseSplit(b, 1, low, bit);
    ReverseBit(bit);
    if bit == 0 {
      assert bit * Pow2(b) == 0;
    } else {
      assert bit * Pow2(b) == Pow2(b);
    }
  }

  /** Bits above `b` that are zero reverse into low zero bits. */
  lemma ReverseShort(b: nat, len: nat, x: nat)
    requires b <= len && x < Pow2(b)
    ensures Reverse(len, x) == Reverse(b, x) * Pow2(len - b)
  {
    hide Reverse, Pow2;
    ReverseSplit(b, len - b, x, 0);
    ReverseZero(len - b);
    assert 0 * Pow2(b) + x == x;
  }

  lemma NextLow(huff: nat, b: nat)
    ensures
      var bit := (huff / Pow2(b)) % 2;
      huff % Pow2(b + 1) == bit * Pow2(b) + huff % Pow2(b)
  {
    assert Pow2(1) == 2 by { assert Pow2(0) == 1; }
    SplitBits(huff, b, 1);
  }

  lemma HalfUnit(r: nat, len: nat, b: nat)
    requires b < len
    ensures (2 * r + 2) * Pow2(len - b - 1) == (r + 1) * Pow2(len - b)
  {
    MulAssoc(r + 1, 2, Pow2(len - b - 1));
  }

  /** The bits of `huff` from `b` up to `len` are ones. */
  ghost predicate OnesFrom(huff: nat, len: nat, b: nat)
    requires b <= len
  {
    Reverse(len, huff) + 1 == (Reverse(b, huff % Pow2(b)) + 1) * Pow2(len - b)
  }

  lemma OneMore(huff: nat, len: nat, b: nat)
    requires b < len && OnesFrom(huff, len, b + 1) && (huff / Pow2(b)) % 2 == 1
    ensures OnesFrom(huff, len, b)
  {
    hide Reverse;
    NextLow(huff, b);
    TopBit(b, huff % Pow2(b), 1);
    HalfUnit(Reverse(b, huff % Pow2(b)), len, b);
  }

  lemma HalfPower(b: nat)
    ensures Pow2(b) / 2 == if b == 0 then 0 else Pow2(b - 1)
  {
  }

  lemma SetTopZero(huff: nat, len: nat, b: nat)
    requires b < len && OnesFrom(huff, len, b + 1) && (huff / Pow2(b)) % 2 == 0
    ensures
      var next := huff % Pow2(b) + Pow2(b);
      next < Pow2(len) && Reverse(len, next) == Reverse(len, huff) + 1
  {
    hide Reverse, Pow2;
    var low, p := huff % Pow2(b), Pow2(b);
    NextLow(huff, b);
    assert 0 * p + low == low && 1 * p + low == low + p;
    TopBit(b, low, 0);
    TopBit(b, low, 1);
    Pow2Monotone(b + 1, len);
    ReverseShort(b + 1, len, low + p);
    var u, r := Pow2(len - (b + 1)), Reverse(b, low);
    assert huff % Pow2(b + 1) == low;
    assert Reverse(len, huff) + 1 == (2 * r + 1) * u == Reverse(len, low + p);
  }

  /** Adds one to the `len`-bit code whose bits are stored in reverse order. */
  method BackwardIncrement(huff: nat, len: nat) returns (next: nat)
    requires 1 <= len <= MAXBITS && huff < Pow2(len)
    ensures next < Pow2(len)
    ensures Reverse(len, next) == (Reverse(len, huff) + 1) % Pow2(len)
  {
    hide Reverse, Pow2;
    SmallestPowers();
    var incr := Pow2(len - 1);
    ghost var b := len;
    assert OnesFrom(huff, len, len) by {
      DivModUnique(huff, Pow2(len), 0, huff);
    }
    while incr != 0 && (huff / incr) % 2 != 0
      invariant 0 <= b <= len && incr == if b == 0 then 0 else Pow2(b - 1)
      invariant OnesFrom(huff, len, b)
      decreases b
    {
      OneMore(huff, len, b - 1);
      HalfPower(b - 1);
      incr := incr / 2;
      b := b - 1;
    }
    if incr != 0 {
      next := huff % incr + incr;
      SetTopZero(huff, len, b - 1);
      DivModUnique(Reverse(len, huff) + 1, Pow2(len), 0, Reverse(len, next));
    } else {
      next := 0;
      ReverseZero(len);
      ReverseZero(0);
      assert huff % Pow2(0) == 0 && Pow2(len - 0) == Pow2(len);
      DivModUnique(Reverse(len, huff) + 1, Pow2(len), 1, 0);
    }
  }

  // ---------- pieces of the filling loop ----------

  /** Enters `here` at every index of the table at `base` that is `h` modulo `incr`. */
  method Replicate(table: array<Code>, base: nat, h: nat, incr: nat, size: nat, here: Code)
    requires h < incr <= size && size % incr == 0
    requires base + size <= table.Length
    modifies table
    ensures forall k :: base <= k < base + size ==>
      table[k] == if (k - base) % incr == h then here else old(table[k])
    ensures forall k :: 0 <= k < table.Length && !(base <= k < base + size) ==> table[k] == old(table[k])
  {
    var fill := size;
    while fill != 0
      invariant 0 <= fill <= size && fill % incr == 0
      invariant forall k :: base <= k < base + size ==>
        table[k] == if (k - base) % incr == h && k - base >= fill then here else old(table[k])
      invariant forall k :: 0 <= k < table.Length && !(base <= k < base + size) ==> table[k] == old(table[k])
    {
      StepDown(fill, incr, h);
      fill := fill - incr;
      table[base + h + fill] := here;
    }
  }

  /** Between two multiples of `n` there is one number that is `h` modulo `n`. */
  lemma StepDown(fill: nat, n: nat, h: nat)
    requires 0 < n && h < n && fill > 0 && fill % n == 0
    ensures fill >= n && (fill - n) % n == 0
    ensures forall i :: fill - n <= i < fill ==> (i % n == h <==> i == fill - n + h)
  {
    var q := fill / n;
    DivMod(fill, n);
    MulDistribute(q, -1, n);
    if q <= 0 {
      MulMonotone(n, q, 0);
    }
    MulMonotone(n, 1, q);
    DivModUnique(fill - n, n, q - 1, 0);
    forall i | fill - n <= i < fill
      ensures i % n == h <==> i == fill - n + h
    {
      DivModUnique(i, n, q - 1, i - (fill - n));
    }
  }

  /** The number of codes of each length still to be entered, from code number `r` of length `len` on. */
  ghost predicate Remaining(lens: seq<nat>, count: seq<nat>, len: nat, r: nat) {
    && |count| == MAXBITS + 1 && 1 <= len <= MAXBITS
    && r < Total(lens, len) && count[len] == Total(lens, len) - r
    && (forall l :: len < l <= MAXBITS ==> count[l] == Total(lens, l))
  }

  /** What is left of a prefix when the codes up to length `x - 1` are entered. */
  ghost function Left(lens: seq<nat>, len: nat, pos: int, whole: nat, x: nat): int
    requires 1 <= x <= MAXBITS + 1
  {
    if x == len then whole else whole + pos - Below(lens, x)
  }

  lemma LeftStep(lens: seq<nat>, count: seq<nat>, len: nat, r: nat, whole: nat, x: nat, left: int)
    requires Remaining(lens, count, len, r) && len <= x <= MAXBITS
    requires left * Unit(x) == Left(lens, len, Below(lens, len) + r * Unit(len), whole, x)
    ensures (left - count[x]) * Unit(x) == Left(lens, len, Below(lens, len) + r * Unit(len), whole, x + 1)
  {
    hide Unit, Count, Total;
    var taken: int, entered: int := count[x], r;
    MulDistribute(left, -taken, Unit(x));
    MulDistribute(Total(lens, len), -entered, Unit(len));
    NegatedProduct(taken, Unit(x));
    NegatedProduct(entered, Unit(len));
  }

  lemma NegatedProduct(a: int, u: int)
    ensures (-a) * u == -(a * u)
  {
  }

  lemma SignOfProduct(a: int, u: int)
    requires u > 0
    ensures a <= 0 <==> a * u <= 0
    ensures a < 0 <==> a * u < 0
  {
    if a <= 0 {
      MulMonotone(u, a, 0);
    } else {
      MulMonotone(u, 1, a);
    }
    if a < 0 {
      MulMonotone(u, a, -1);
    }
  }

  /** How many bits index the sub-table: enough for all the codes in its prefix. */
  method SubTableBits(lens: seq<nat>, count: array<nat>, len: nat, drop: nat, max: nat, ghost r: nat)
      returns (curr: nat)
    requires Remaining(lens, count[..], len, r)
    requires drop < len <= max == Longest(lens)
    ensures len <= drop + curr <= max && Total(lens, drop + curr) > 0
    ensures
      var pos := Below(lens, len) + r * Unit(len);
      && Left(lens, len, pos, Unit(drop), drop + curr) > 0
      && (drop + curr == max || Left(lens, len, pos, Unit(drop), drop + curr + 1) <= 0)
  {
    hide Pow2;
    ghost var pos := Below(lens, len) + r * Unit(len);
    MulPositive(r, Unit(len));
    curr := len - drop;
    var left: int := Pow2(curr);
    UnitRatio(drop, len);
    while curr + drop < max
      invariant len <= drop + curr <= max
      invariant left * Unit(drop + curr) == Left(lens, len, pos, Unit(drop), drop + curr)
      invariant left > 0
      invariant Total(lens, drop + curr) > 0 || drop + curr < max
      invariant len < drop + curr ==> Left(lens, len, pos, Unit(drop), drop + curr) > 0
      decreases max - curr
    {
      LeftStep(lens, count[..], len, r, Unit(drop), drop + curr, left);
      left := left - count[curr + drop];
      SignOfProduct(left, Unit(drop + curr));
      if left <= 0 {
        break;
      }
      curr := curr + 1;
      UnitDouble(drop + curr);
      MulAssoc(left, 2, Unit(drop + curr));
      left := left * 2;
    }
  }

  // ---------- the order in which symbols are entered ----------

  /** Lengths that are not used take no symbols and no part of the code. */
  lemma {:induction false} SkipUnused(lens: seq<nat>, m: nat, l: nat)
    requires 1 <= m <= l <= MAXBITS + 1
    requires forall k :: m <= k < l ==> Total(lens, k) == 0
    ensures Below(lens, l) == Below(lens, m)
    ensures Shorter(lens, l, |lens|) == Shorter(lens, m, |lens|)
  {
    if m < l {
      SkipUnused(lens, m, l - 1);
      assert Total(lens, l - 1) == 0;
    }
  }

  predicate IsLast(lens: seq<nat>, s: nat)
    requires Coded(lens, s)
  {
    lens[s] == Longest(lens) && Count(lens, lens[s], s) + 1 == Total(lens, lens[s])
  }

  /** The symbol after `s` in the order, whose interval starts where that of `s` ends. */
  lemma Successor(lens: seq<nat>, s: nat) returns (s': nat)
    requires Coded(lens, s) && !IsLast(lens, s)
    ensures Coded(lens, s') && Place(lens, s') == Place(lens, s) + 1
    ensures Start(lens, s') == Start(lens, s) + Unit(lens[s])
    ensures
      if Count(lens, lens[s], s) + 1 < Total(lens, lens[s])
      then lens[s'] == lens[s] && Count(lens, lens[s], s') == Count(lens, lens[s], s) + 1
      else lens[s'] > lens[s] && Count(lens, lens[s'], s') == 0
    ensures forall k: nat :: Coded(lens, k) && lens[k] > lens[s] ==> lens[k] >= lens[s']
  {
    var l, r := lens[s], Count(lens, lens[s], s);
    MulDistribute(r, 1, Unit(l));
    CountStrict(lens, s, |lens|);
    if r + 1 < Total(lens, l) {
      s' := NthSymbol(lens, l, r + 1, |lens|);
    } else {
      assert Total(lens, l) > 0;
      var n := UsedFrom(lens, l + 1);
      assert Total(lens, Longest(lens)) > 0;
      assert n <= Longest(lens);
      s' := NthSymbol(lens, n, 0, |lens|);
      SkipUnused(lens, l + 1, n);
      forall k: nat | Coded(lens, k) && lens[k] > l
        ensures lens[k] >= n
      {
        var used := Total(lens, lens[k]);
        CountStrict(lens, k, |lens|);
      }
    }
  }

  lemma LastEnds(lens: seq<nat>, s: nat)
    requires Coded(lens, s) && IsLast(lens, s)
    ensures Start(lens, s) + Unit(lens[s]) == Kraft(lens)
  {
    var l, r := lens[s], Count(lens, lens[s], s);
    MulDistribute(r, 1, Unit(l));
    SkipUnused(lens, l + 1, MAXBITS + 1);
  }

  lemma FirstSymbol(lens: seq<nat>) returns (s: nat)
    requires Longest(lens) > 0
    ensures Coded(lens, s) && Place(lens, s) == 0 && Start(lens, s) == 0
    ensures lens[s] == UsedFrom(lens, 1) && Count(lens, lens[s], s) == 0
  {
    var n := UsedFrom(lens, 1);
    assert Total(lens, Longest(lens)) > 0;
    assert n <= Longest(lens);
    s := NthSymbol(lens, n, 0, |lens|);
    SkipUnused(lens, 1, n);
  }

  /** The sent bits of a symbol are the reversed start of its interval. */
  lemma SentIsReversedStart(lens: seq<nat>, s: nat)
    requires Coded(lens, s)
    ensures SentCode(lens, s) == Rev15(Start(lens, s))
    ensures Rev15(Start(lens, s)) < Pow2(lens[s])
  {
    StartIsCodeword(lens, s);
    ReversedMultiple(lens[s], Codeword(lens, s), Start(lens, s));
  }

  lemma ReversedMultiple(l: nat, c: nat, v: nat)
    requires l <= MAXBITS && v == c * Unit(l)
    ensures Rev15(v) == Reverse(l, c)
  {
    hide Reverse;
    ReverseSplit(MAXBITS - l, l, 0, c);
    ReverseZero(MAXBITS - l);
  }

  /** The backwards increment moves to the reversed end of the interval. */
  lemma IncrementIsNextStart(lens: seq<nat>, s: nat, next: nat)
    requires Coded(lens, s) && Kraft(lens) <= Pow2(MAXBITS)
    requires next < Pow2(lens[s])
    requires Reverse(lens[s], next) == (Reverse(lens[s], SentCode(lens, s)) + 1) % Pow2(lens[s])
    ensures next == Rev15(Start(lens, s) + Unit(lens[s]))
  {
    hide Pow2, Below, Count, Reverse, Kraft, FirstCode;
    var l, c := lens[s], Codeword(lens, s);
    CodewordFits(lens, s);
    ReverseInvolution(l, c);
    ReverseInvolution(l, next);
    ReverseLow(l, c + 1);
    StartIsCodeword(lens, s);
    MulDistribute(c, 1, Unit(l));
    ReversedMultiple(l, c + 1, Start(lens, s) + Unit(l));
  }

  // ---------- the invariant of the filling loop ----------

  /** The number of the prefix of root size that `pos` has. */
  function Prefix(root: nat, pos: nat): nat
    requires root <= MAXBITS
  {
    DivMod(pos, Unit(root));
    pos / Unit(root)
  }

  /**
    The table holds the codes before `pos`: either only root entries so far, or the
    sub-table at `off` with `curr` index bits for the prefix `low` is being filled.
   */
  ghost predicate Partial(t: CodeType, lens: seq<nat>, root: nat, tab: seq<Code>, pos: nat,
                          drop: nat, off: nat, curr: nat, low: int, used: nat)
    requires |lens| <= MaxSymbols(t) && root <= MAXBITS
  {
    if drop == 0 then
      && off == 0 && curr == root && low == -1 && used == Pow2(root)
      && RootOnly(t, lens, root, tab, pos)
    else
      && drop == root && 0 <= low < Pow2(root)
      && Rev15(low) <= pos <= Rev15(low) + Unit(root)
      && Linked(t, lens, root, tab, low, curr, off, pos)
      && FilledTo(t, lens, root, tab, Rev15(low), off)
      && used == off + Pow2(curr) == SizeUpTo(lens, root, Prefix(root, Rev15(low)) + 1)
      && (root + curr == Longest(lens) || Below(lens, root + curr + 1) >= Rev15(low) + Unit(root))
  }

  /** The code of `s` belongs in the table being filled. */
  ghost predicate Fits(lens: seq<nat>, root: nat, s: nat, drop: nat, curr: nat, low: int) {
    && Coded(lens, s)
    && if drop == 0 then lens[s] <= root == curr
       else drop == root < lens[s] <= root + curr && low == SentCode(lens, s) % Pow2(root)
  }

  /** What entering symbol `s` in the table at `off` changes. */
  ghost predicate Entered(t: CodeType, lens: seq<nat>, tab: seq<Code>, tab': seq<Code>,
                          drop: nat, off: nat, curr: nat, s: nat)
    requires |lens| <= MaxSymbols(t) && Coded(lens, s) && lens[s] >= drop
  {
    && |tab| == |tab'| && off + Pow2(curr) <= |tab|
    && (forall k :: 0 <= k < |tab| && !(off <= k < off + Pow2(curr)) ==> tab'[k] == tab[k])
    && (forall k :: off <= k < off + Pow2(curr) ==>
          tab'[k] == if (k - off) % Pow2(lens[s] - drop) == SentCode(lens, s) / Pow2(drop)
                     then EntryOf(t, s, lens[s] - drop) else tab[k])
  }

  lemma EnterSymbol(t: CodeType, lens: seq<nat>, root: nat, tab: seq<Code>, tab': seq<Code>,
                    drop: nat, off: nat, curr: nat, low: int, used: nat, s: nat)
    requires |lens| <= MaxSymbols(t) && 1 <= root <= MAXBITS && Kraft(lens) <= Pow2(MAXBITS)
    requires Fits(lens, root, s, drop, curr, low)
    requires Partial(t, lens, root, tab, Start(lens, s), drop, off, curr, low, used)
    requires Entered(t, lens, tab, tab', drop, off, curr, s)
    ensures Partial(t, lens, root, tab', Start(lens, s) + Unit(lens[s]), drop, off, curr, low, used)
  {
    hide EntryOf, Pow2, Rev15, Below, Count, SentCode, SizeUpTo;
    SmallestPowers();
    if drop == 0 {
      RootStep(t, lens, root, tab, tab', s);
    } else {
      SubTableStep(t, lens, root, tab, tab', low, curr, off, s);
      FilledFrame(t, lens, root, tab, tab', Rev15(low), off, |tab|);
      WithinPrefix(lens, root, low, s);
    }
  }

  /** A long code does not reach over the end of its prefix. */
  lemma WithinPrefix(lens: seq<nat>, root: nat, low: nat, s: nat)
    requires root <= MAXBITS && Coded(lens, s) && lens[s] > root && Kraft(lens) <= Pow2(MAXBITS)
    requires low == SentCode(lens, s) % Pow2(root)
    ensures Rev15(low) <= Start(lens, s)
    ensures Start(lens, s) + Unit(lens[s]) <= Rev15(low) + Unit(root)
    ensures Rev15(low) == (Start(lens, s) / Unit(root)) * Unit(root)
  {
    var pos, l := Start(lens, s), lens[s];
    SentIsReversedStart(lens, s);
    LeadingBits(root, SentCode(lens, s));
    IntervalEnd(lens, s);
    Pow2Monotone(MAXBITS - l, MAXBITS);
    ReverseInvolution(MAXBITS, pos);
    var q := pos / Unit(root);
    DivMod(pos, Unit(root));
    UnitRatio(root, l);
    StartIsCodeword(lens, s);
    AlignedFits(Codeword(lens, s), q, Pow2(l - root), Unit(l), Unit(root));
  }

  lemma AlignedFits(c: nat, q: nat, k: nat, u: nat, whole: nat)
    requires whole == k * u && u > 0 && c * u < q * whole + whole
    ensures c * u + u <= q * whole + whole
  {
    MulDistribute(q, 1, whole);
    MulAssoc(q + 1, k, u);
    var n := (q + 1) * k;
    if c >= n {
      MulMonotone(u, n, c);
    } else {
      MulMonotone(u, c + 1, n);
      MulDistribute(c, 1, u);
    }
  }

  // ---------- starting the next sub-table ----------

  /** When the prefix did not change, the next symbol belongs in the same table. */
  lemma SamePrefixFits(t: CodeType, lens: seq<nat>, root: nat, tab: seq<Code>, pos: nat,
                       drop: nat, off: nat, curr: nat, low: int, used: nat, s: nat)
    requires |lens| <= MaxSymbols(t) && 1 <= root <= MAXBITS && Kraft(lens) <= Pow2(MAXBITS)
    requires Partial(t, lens, root, tab, pos, drop, off, curr, low, used)
    requires Coded(lens, s) && Start(lens, s) == pos && (drop != 0 ==> lens[s] > root)
    requires lens[s] <= root || SentCode(lens, s) % Pow2(root) == low
    ensures Fits(lens, root, s, drop, curr, low)
  {
    if drop != 0 {
      WithinPrefix(lens, root, low, s);
      if lens[s] > root + curr {
        LongestIsLongest(lens, s);
        BelowMonotone(lens, root + curr + 1, lens[s]);
        IntervalEnd(lens, s);
      }
    }
  }

  lemma LongestIsLongest(lens: seq<nat>, s: nat)
    requires Coded(lens, s)
    ensures lens[s] <= Longest(lens)
  {
    var n := Total(lens, lens[s]);
    CountStrict(lens, s, |lens|);
  }

  /** `s` is the first symbol of a new long prefix. */
  ghost predicate StartsPrefix(lens: seq<nat>, root: nat, s: nat) {
    && root <= MAXBITS && Coded(lens, s) && lens[s] > root
    && Start(lens, s) == Prefix(root, Start(lens, s)) * Unit(root)
  }

  /** What holds when symbol `s` needs a new sub-table behind the `lim` entries so far. */
  ghost predicate NeedsTable(t: CodeType, lens: seq<nat>, root: nat, tab: seq<Code>, s: nat, lim: nat)
    requires |lens| <= MaxSymbols(t) && root <= MAXBITS
  {
    && StartsPrefix(lens, root, s)
    && lim == SizeUpTo(lens, root, Prefix(root, Start(lens, s)))
    && FilledTo(t, lens, root, tab, Start(lens, s), lim)
    && Rev15(SentCode(lens, s) % Pow2(root)) == Start(lens, s)
  }

  /** The first long symbol starts a prefix. */
  lemma FirstPrefix(t: CodeType, lens: seq<nat>, root: nat, tab: seq<Code>, s: nat, c: nat)
    requires |lens| <= MaxSymbols(t) && 1 <= root <= MAXBITS && Kraft(lens) <= Pow2(MAXBITS)
    requires Coded(lens, s) && lens[s] > root && Count(lens, lens[s], s) == 0
    requires RootOnly(t, lens, root, tab, Start(lens, s))
    requires Start(lens, s) == c * Unit(root)
    requires forall k: nat :: Coded(lens, k) && lens[k] > root ==> lens[k] >= lens[s]
    ensures NeedsTable(t, lens, root, tab, s, Pow2(root))
  {
    WithinPrefix(lens, root, SentCode(lens, s) % Pow2(root), s);
    DivModUnique(Start(lens, s), Unit(root), c, 0);
    FirstLong(lens, root, s, c);
    RootOnlyIsFilled(t, lens, root, tab, Start(lens, s));
  }

  /** A symbol with other leading bits than the current sub-table starts a new prefix. */
  lemma NextPrefix(t: CodeType, lens: seq<nat>, root: nat, tab: seq<Code>, drop: nat, off: nat,
                   curr: nat, low: int, used: nat, s: nat)
    requires |lens| <= MaxSymbols(t) && 1 <= root <= MAXBITS && Kraft(lens) <= Pow2(MAXBITS)
    requires Coded(lens, s) && lens[s] > root && drop != 0
    requires Partial(t, lens, root, tab, Start(lens, s), drop, off, curr, low, used)
    requires SentCode(lens, s) % Pow2(root) != low
    ensures NeedsTable(t, lens, root, tab, s, used)
  {
    var pos := Start(lens, s);
    WithinPrefix(lens, root, SentCode(lens, s) % Pow2(root), s);
    ShortWord(root, low);
    DivModUnique(Rev15(low), Unit(root), Reverse(root, low), 0);
    PrefixChanged(root, low, SentCode(lens, s) % Pow2(root), pos, Prefix(root, pos), Prefix(root, Rev15(low)));
    CloseSubTable(t, lens, root, tab, low, curr, off, pos);
  }

  lemma FirstLong(lens: seq<nat>, root: nat, s: nat, q: nat)
    requires root <= MAXBITS && Coded(lens, s) && Start(lens, s) == q * Unit(root)
    requires Count(lens, lens[s], s) == 0
    requires forall k: nat :: Coded(lens, k) && lens[k] > root ==> lens[k] >= lens[s]
    ensures SizeUpTo(lens, root, q) == Pow2(root)
  {
    forall k: nat | Coded(lens, k) && lens[k] > root
      ensures Start(lens, k) >= q * Unit(root)
    {
      IntervalEnd(lens, k);
      BelowMonotone(lens, lens[s], lens[k]);
    }
    NoSubTables(lens, root, q);
  }

  lemma PrefixChanged(root: nat, low: nat, low': nat, pos: nat, q: nat, q': nat)
    requires root <= MAXBITS && low < Pow2(root) && low' < Pow2(root) && low != low'
    requires Rev15(low) == q' * Unit(root) && Rev15(low') == q * Unit(root)
    requires Rev15(low') <= pos < Rev15(low') + Unit(root)
    requires Rev15(low) <= pos <= Rev15(low) + Unit(root)
    ensures pos == Rev15(low) + Unit(root) == Rev15(low') && q == q' + 1
  {
    RootIntervals(root, low, low');
    MulDistribute(q', 1, Unit(root));
    SameDigits(Unit(root), q, q' + 1, 0);
  }

  /** The sub-table is as deep as its longest code. */
  lemma SubTableDepth(lens: seq<nat>, root: nat, s: nat, c: nat)
    requires StartsPrefix(lens, root, s) && Kraft(lens) <= Pow2(MAXBITS)
    requires lens[s] <= root + c <= Longest(lens) && Total(lens, root + c) > 0
    requires root + c == lens[s] || Below(lens, root + c) < Start(lens, s) + Unit(root)
    requires root + c == Longest(lens) || Below(lens, root + c + 1) >= Start(lens, s) + Unit(root)
    ensures Deepest(lens, root, Prefix(root, Start(lens, s)), |lens|) == root + c
  {
    hide Kraft, Below, Count, Pow2, Deepest, LongestUpTo;
    var pos, q, d := Start(lens, s), Prefix(root, Start(lens, s)), root + c;
    MulDistribute(q, 1, Unit(root));
    forall k: nat | Coded(lens, k) && lens[k] > d
      ensures Start(lens, k) / Unit(root) != q
    {
      LongestIsLongest(lens, k);
      BelowMonotone(lens, d + 1, lens[k]);
      IntervalEnd(lens, k);
      DivRange(Start(lens, k), Unit(root), q + 1);
    }
    if d == lens[s] {
      DeepestIs(lens, root, q, |lens|, s);
    } else {
      var k := NthSymbol(lens, d, 0, |lens|);
      IntervalOrder(lens, s, k);
      DivRange(Start(lens, k), Unit(root), q);
      DivRange(Start(lens, k), Unit(root), q + 1);
      DeepestIs(lens, root, q, |lens|, k);
    }
  }

  /** What is known when the size of a new sub-table has been determined. */
  lemma NewSize(lens: seq<nat>, root: nat, s: nat, c: nat)
    requires StartsPrefix(lens, root, s) && Kraft(lens) <= Pow2(MAXBITS)
    requires lens[s] <= root + c <= Longest(lens) && Total(lens, root + c) > 0
    requires Left(lens, lens[s], Start(lens, s), Unit(root), root + c) > 0
    requires root + c == Longest(lens) || Left(lens, lens[s], Start(lens, s), Unit(root), root + c + 1) <= 0
    ensures
      var q := Prefix(root, Start(lens, s));
      && SizeUpTo(lens, root, q) + Pow2(c) == SizeUpTo(lens, root, q + 1)
      && SizeUpTo(lens, root, q + 1) <= TableSize(lens, root)
  {
    hide Pow2, Deepest, Start, Below;
    var q := Prefix(root, Start(lens, s));
    assert SubSize(lens, root, q) == Pow2(c) by {
      SubTableDepth(lens, root, s, c);
    }
    assert q + 1 <= Pow2(root) by {
      IntervalEnd(lens, s);
      PrefixBound(root, Start(lens, s));
    }
    SizeMonotone(lens, root, q + 1, Pow2(root));
  }

  lemma PrefixBound(root: nat, pos: nat)
    requires root <= MAXBITS && pos < Pow2(MAXBITS)
    ensures Prefix(root, pos) + 1 <= Pow2(root)
  {
    Pow2Add(root, MAXBITS - root);
    DivRange(pos, Unit(root), Pow2(root));
  }

  /** The codes after a full sub-table belong to later prefixes. */
  lemma RoomBehind(lens: seq<nat>, root: nat, s: nat, c: nat)
    requires root <= MAXBITS && Coded(lens, s) && root < lens[s] <= root + c <= Longest(lens)
    requires root + c == Longest(lens) || Left(lens, lens[s], Start(lens, s), Unit(root), root + c + 1) <= 0
    ensures root + c == Longest(lens) || Below(lens, root + c + 1) >= Start(lens, s) + Unit(root)
  {
    hide Below, Count, Unit;
  }

  lemma OpenPartial(t: CodeType, lens: seq<nat>, root: nat, tab: seq<Code>, pos: nat, off: nat, curr: nat, low: nat,
      used: nat)
    requires |lens| <= MaxSymbols(t) && 1 <= root <= MAXBITS && low < Pow2(root) && Rev15(low) == pos
    requires Linked(t, lens, root, tab, low, curr, off, pos) && FilledTo(t, lens, root, tab, pos, off)
    requires used == off + Pow2(curr) == SizeUpTo(lens, root, Prefix(root, pos) + 1)
    requires root + curr == Longest(lens) || Below(lens, root + curr + 1) >= pos + Unit(root)
    ensures Partial(t, lens, root, tab, pos, root, off, curr, low, used)
  {
    hide Linked, FilledTo, SizeUpTo, Prefix, Rev15, Pow2, Below, LongestUpTo, Unit, Complete, Deep, Direct, Kraft,
         Count;
    assert Unit(root) >= 0;
  }

  lemma OpenFits(lens: seq<nat>, root: nat, s: nat, c: nat, low: nat)
    requires root >= 1 && Coded(lens, s) && root < lens[s] <= root + c && low == SentCode(lens, s) % Pow2(root)
    ensures Fits(lens, root, s, root, c, low)
  {
    hide SentCode, Pow2;
  }

  lemma LowPrefix(code: nat, root: nat, low: nat)
    requires low == code % Pow2(root)
    ensures low < Pow2(root)
  {
    hide Pow2;
  }

  lemma FilledBounds(t: CodeType, lens: seq<nat>, root: nat, tab: seq<Code>, pos: nat, lim: nat)
    requires |lens| <= MaxSymbols(t) && FilledTo(t, lens, root, tab, pos, lim)
    ensures Pow2(root) <= lim <= |tab|
  {
    hide Pow2, Rev15, Complete;
  }

  lemma OpenAt(t: CodeType, lens: seq<nat>, root: nat, tab: seq<Code>, tab': seq<Code>, pos: nat, lim: nat, c: nat,
      low: nat, used: nat)
    requires |lens| <= MaxSymbols(t) && 1 <= root <= MAXBITS && low < Pow2(root) && Rev15(low) == pos
    requires FilledTo(t, lens, root, tab, pos, lim) && 1 <= c && root + c <= MAXBITS && used <= |tab| && low < |tab|
    requires used == lim + Pow2(c) == SizeUpTo(lens, root, Prefix(root, pos) + 1)
    requires root + c == Longest(lens) || Below(lens, root + c + 1) >= pos + Unit(root)
    requires tab' == tab[low := Code(c, root, lim)]
    ensures Partial(t, lens, root, tab', pos, root, lim, c, low, used)
  {
    hide Partial, Kraft, Below, Count, Pow2, Rev15, Linked, FilledTo, SizeUpTo, LongestUpTo, Prefix, Unit, Complete,
         Deep, Direct;
    OpenSubTable(t, lens, root, tab, pos, lim, low, c);
    OpenPartial(t, lens, root, tab', pos, lim, c, low, used);
  }

  lemma LongestBound(lens: seq<nat>)
    ensures Longest(lens) <= MAXBITS
  {
  }

  lemma NewSubTable(t: CodeType, lens: seq<nat>, root: nat, tab: seq<Code>, lim: nat, s: nat, c: nat, low: nat)
    requires |lens| <= MaxSymbols(t) && 1 <= root <= MAXBITS && Kraft(lens) <= Pow2(MAXBITS)
    requires NeedsTable(t, lens, root, tab, s, lim) && low == SentCode(lens, s) % Pow2(root)
    requires lim + Pow2(c) <= |tab|
    requires lens[s] <= root + c <= Longest(lens)
    requires root + c == Longest(lens) || Left(lens, lens[s], Start(lens, s), Unit(root), root + c + 1) <= 0
    requires lim + Pow2(c) == SizeUpTo(lens, root, Prefix(root, Start(lens, s)) + 1)
    ensures
      var tab' := tab[low := Code(c, root, lim)];
      && Partial(t, lens, root, tab', Start(lens, s), root, lim, c, low, lim + Pow2(c))
      && Fits(lens, root, s, root, c, low)
  {
    hide *;
    NeedsFacts(t, lens, root, tab, s, lim, low);
    RoomBehind(lens, root, s, c);
    OpenFits(lens, root, s, c, low);
    OpenAt(t, lens, root, tab, tab[low := Code(c, root, lim)], Start(lens, s), lim, c, low, lim + Pow2(c));
  }

  lemma NeedsFacts(t: CodeType, lens: seq<nat>, root: nat, tab: seq<Code>, s: nat, lim: nat, low: nat)
    requires |lens| <= MaxSymbols(t) && 1 <= root <= MAXBITS && NeedsTable(t, lens, root, tab, s, lim)
    requires low == SentCode(lens, s) % Pow2(root)
    ensures Coded(lens, s) && root < lens[s] && Longest(lens) <= MAXBITS && Rev15(low) == Start(lens, s)
    ensures low < Pow2(root) <= lim <= |tab| && FilledTo(t, lens, root, tab, Start(lens, s), lim)
  {
    hide Kraft, Below, Count, Pow2, Rev15, SentCode, Linked, FilledTo, SizeUpTo, LongestUpTo, Prefix, Unit, Complete,
         Deep, Direct, Start, Longest;
    LongestBound(lens);
    LowPrefix(SentCode(lens, s), root, low);
    FilledBounds(t, lens, root, tab, Start(lens, s), lim);
  }

  // ---------- the finished table ----------

  lemma FilledRooted(t: CodeType, lens: seq<nat>, root: nat, tab: seq<Code>)
    requires |lens| <= MaxSymbols(t) && root <= MAXBITS && FilledTo(t, lens, root, tab, Kraft(lens), |tab|)
    requires forall i: nat :: i < Pow2(root) && Rev15(i) >= Kraft(lens) ==> tab[i] == INVALID
    ensures Rooted(t, lens, tab, root)
  {
    hide Kraft, Pow2, Rev15, Direct, Linked, EntryOf;
    forall i: nat | i < Pow2(root) && IsLink(t, tab[i])
      ensures tab[i].bits == root < Longest(lens)
    {
      assert Complete(t, lens, root, tab, i, |tab|);
      if Direct(t, lens, root, tab, i) {
        DirectNoLink(t, lens, root, tab, i);
      } else {
        var c: nat, off: nat :| Linked(t, lens, root, tab, i, c, off, Pow2(MAXBITS)) && off + Pow2(c) <= |tab|;
        LinkIsLong(t, lens, root, tab, i, c, off);
      }
    }
  }

  lemma DirectNoLink(t: CodeType, lens: seq<nat>, root: nat, tab: seq<Code>, i: nat)
    requires |lens| <= MaxSymbols(t) && Direct(t, lens, root, tab, i)
    ensures !IsLink(t, tab[i])
  {
    hide EntryOf, Rev15;
    var s: nat :| Covers(lens, s, Rev15(i)) && lens[s] <= root && tab[i] == EntryOf(t, s, lens[s]);
    EntryNoLink(t, s, lens[s]);
  }

  lemma LinkIsLong(t: CodeType, lens: seq<nat>, root: nat, tab: seq<Code>, i: nat, c: nat, off: nat)
    requires |lens| <= MaxSymbols(t) && Linked(t, lens, root, tab, i, c, off, Pow2(MAXBITS))
    ensures root < Longest(lens) && i < |tab| && tab[i].bits == root
  {
    hide EntryOf;
    assert Rev15(Joined(root, i, 0)) < Pow2(MAXBITS) && Deep(t, lens, root, tab, i, c, off, 0);
    var s: nat :| Covers(lens, s, Rev15(Joined(root, i, 0))) && root < lens[s] <= root + c
                  && tab[off] == EntryOf(t, s, lens[s] - root);
    LongestIsLongest(lens, s);
  }

  /** Once all codes of a complete code are entered all root entries are complete. */
  lemma FinishFilled(t: CodeType, lens: seq<nat>, root: nat, tab: seq<Code>,
                     drop: nat, off: nat, curr: nat, low: int, used: nat)
    requires |lens| <= MaxSymbols(t) && 1 <= root <= MAXBITS && Kraft(lens) == Pow2(MAXBITS)
    requires Partial(t, lens, root, tab, Kraft(lens), drop, off, curr, low, used)
    requires drop == 0 ==> Longest(lens) <= root
    ensures used == TableSize(lens, root) <= |tab| && FilledTo(t, lens, root, tab, Kraft(lens), used)
  {
    hide Pow2, Rev15, FilledTo, Complete, Kraft, SizeUpTo, LongestUpTo;
    if drop == 0 {
      forall k: nat | Coded(lens, k)
        ensures lens[k] <= root
      {
        LongestIsLongest(lens, k);
      }
      NoSubTables(lens, root, Pow2(root));
      RootOnlyIsFilled(t, lens, root, tab, Kraft(lens));
    } else {
      LastPrefix(root, low);
      CloseSubTable(t, lens, root, tab, low, curr, off, Kraft(lens));
    }
  }

  /** Once all codes of a complete code are entered the table decodes. */
  lemma FinishComplete(t: CodeType, lens: seq<nat>, root: nat, tab: seq<Code>,
                       drop: nat, off: nat, curr: nat, low: int, used: nat)
    requires |lens| <= MaxSymbols(t) && 1 <= root <= MAXBITS && Kraft(lens) == Pow2(MAXBITS)
    requires Partial(t, lens, root, tab, Kraft(lens), drop, off, curr, low, used)
    requires drop == 0 ==> Longest(lens) <= root
    ensures used == TableSize(lens, root) <= |tab|
    ensures Decodes(t, lens, tab[..used], root) && Rooted(t, lens, tab[..used], root)
  {
    hide Decodes, Rooted, Pow2, Rev15, Linked, FilledTo, RootOnly, SizeUpTo, Complete, Kraft, Unit, Partial;
    FinishFilled(t, lens, root, tab, drop, off, curr, low, used);
    FilledFrame(t, lens, root, tab, tab[..used], Kraft(lens), used, used);
    FilledDecodes(t, lens, root, tab[..used]);
    FilledRooted(t, lens, root, tab[..used]);
  }

  lemma LastPrefix(root: nat, low: nat)
    requires root <= MAXBITS && low < Pow2(root) && Rev15(low) + Unit(root) >= Pow2(MAXBITS)
    ensures Rev15(low) + Unit(root) == Pow2(MAXBITS)
    ensures Prefix(root, Rev15(low)) + 1 == Pow2(root)
  {
    ShortWord(root, low);
    Pow2Add(root, MAXBITS - root);
    DivModUnique(Rev15(low), Unit(root), Reverse(root, low), 0);
    LastMultiple(Reverse(root, low), Pow2(root), Unit(root));
  }

  lemma LastMultiple(q: nat, n: nat, u: nat)
    requires q < n && q * u + u >= n * u && u > 0
    ensures q + 1 == n && q * u + u == n * u
  {
    MulDistribute(q, 1, u);
    if q + 1 < n {
      MulMonotone(u, q + 2, n);
      MulDistribute(q + 1, 1, u);
    }
  }

  lemma KraftStep(lens: seq<nat>, len: nat, left: int)
    requires 1 <= len <= MAXBITS
    requires left * Unit(len - 1) == Pow2(MAXBITS) - Below(lens, len)
    ensures (left * 2 - Total(lens, len)) * Unit(len) == Pow2(MAXBITS) - Below(lens, len + 1)
  {
    UnitDouble(len);
    MulAssoc(left, 2, Unit(len));
    var taken: int := Total(lens, len);
    MulDistribute(left * 2, -taken, Unit(len));
  }

  /** Determines how much of the code space is left; negative when the lengths over-subscribe it. */
  method CodesLeft(lens: seq<nat>, count: array<nat>) returns (left: int)
    requires count.Length == MAXBITS + 1
    requires forall l :: 0 <= l <= MAXBITS ==> count[l] == Total(lens, l)
    ensures left >= 0 ==> left == Pow2(MAXBITS) - Kraft(lens)
    ensures left < 0 ==> Kraft(lens) > Pow2(MAXBITS)
  {
    hide Kraft, Below, Count, Pow2, Unit;
    KraftEnds(lens);
    left := 1;
    for len := 1 to MAXBITS + 1
      invariant left >= 0
      invariant left * Unit(len - 1) == Pow2(MAXBITS) - Below(lens, len)
    {
      KraftStep(lens, len, left);
      left := left * 2;
      left := left - count[len];
      if left < 0 {
        SignOfProduct(left, Unit(len));
        BelowMonotone(lens, len + 1, MAXBITS + 1);
        return;
      }
    }
  }

  lemma KraftEnds(lens: seq<nat>)
    ensures Unit(0) == Pow2(MAXBITS) && Unit(MAXBITS) == 1 && Below(lens, 1) == 0
              && Below(lens, MAXBITS + 1) == Kraft(lens)
    ensures forall l: nat :: l <= MAXBITS ==> Unit(l) > 0
  {
  }

  /** The space that the caller must provide: what the code needs, or the limit that is checked. */
  function Room(t: CodeType, lens: seq<nat>, root: nat): nat
    requires root <= MAXBITS
  {
    match t
    case Codes => TableSize(lens, root)
    case Lens => Min(ENOUGH_LENS, TableSize(lens, root))
    case Dists => Min(ENOUGH_DISTS, TableSize(lens, root))
  }

  lemma PowerDivides(a: nat, b: nat)
    requires a <= b
    ensures Pow2(a) <= Pow2(b) && Pow2(b) % Pow2(a) == 0
  {
    Pow2Add(b - a, a);
    Pow2Monotone(a, b);
    DivModUnique(Pow2(b), Pow2(a), Pow2(b - a), 0);
  }

  lemma ShiftFits(x: nat, l: nat, d: nat)
    requires x < Pow2(l) && d <= l
    ensures 0 <= x / Pow2(d) < Pow2(l - d)
  {
    Pow2Add(l - d, d);
    DivRange(x, Pow2(d), Pow2(l - d));
    DivRange(x, Pow2(d), 0);
  }

  /** One entry: the code of symbol `s`, replicated in the table at `start + off`. */
  method EnterCode(t: CodeType, lens: seq<nat>, table: array<Code>, start: nat, off: nat, curr: nat,
                   drop: nat, huff: nat, sym: nat, len: nat)
    requires |lens| <= MaxSymbols(t) && Coded(lens, sym) && len == lens[sym]
    requires drop < len <= drop + curr && huff == SentCode(lens, sym)
    requires start + off + Pow2(curr) <= table.Length
    modifies table
    ensures Entered(t, lens, old(table[start..]), table[start..], drop, off, curr, sym)
    ensures forall k :: 0 <= k < start || start + off + Pow2(curr) <= k < table.Length ==> table[k] == old(table[k])
  {
    hide Pow2, Below, EntryOf, Reverse;
    PowerDivides(len - drop, curr);
    ShiftFits(huff, len, drop);
    Replicate(table, start + off, huff / Pow2(drop), Pow2(len - drop), Pow2(curr), EntryOf(t, sym, len - drop));
  }

  /** The loop's step to the next symbol: the code, the counts and the length move on together. */
  ghost predicate AtSymbol(lens: seq<nat>, work: seq<nat>, count: seq<nat>, sym: nat, len: nat, huff: nat, s: nat) {
    && Coded(lens, s) && Place(lens, s) == sym < |work| && work[sym] == s
    && len == lens[s] && huff == SentCode(lens, s)
    && Remaining(lens, count, len, Count(lens, len, s))
  }

  /** Moves on from symbol `s`; `last` tells that all codes have been entered. */
  method NextCode(lens: seq<nat>, count: array<nat>, work: array<nat>, sym: nat, len: nat, huff: nat, ghost s: nat)
      returns (last: bool, sym': nat, len': nat, huff': nat, ghost s': nat)
    requires count != work && Kraft(lens) <= Pow2(MAXBITS) && Sorted(lens, work[..])
    requires AtSymbol(lens, work[..], count[..], sym, len, huff, s)
    modifies count
    ensures last <==> IsLast(lens, s)
    ensures last ==> Start(lens, s) + Unit(len) == Kraft(lens) && len' == len
    ensures sym' == sym + 1 && huff' == Rev15(Start(lens, s) + Unit(len))
    ensures !last ==>
      && AtSymbol(lens, work[..], count[..], sym', len', huff', s')
      && Start(lens, s') == Start(lens, s) + Unit(len)
      && len' >= len && (len' > len ==> Count(lens, len', s') == 0)
      && (forall k: nat :: Coded(lens, k) && lens[k] > len ==> lens[k] >= len')
  {
    hide Below, Start, Kraft, Place, SentCode, Reverse, Pow2;
    SentIsReversedStart(lens, s);
    huff' := BackwardIncrement(huff, len);
    IncrementIsNextStart(lens, s, huff');
    len' := len;
    sym' := sym + 1;
    count[len] := count[len] - 1;
    if count[len] == 0 && len == Longest(lens) {
      last := true;
      LastEnds(lens, s);
      s' := s;
    } else {
      last := false;
      s' := Successor(lens, s);
      SentIsReversedStart(lens, s');
      if count[len] == 0 {
        len' := lens[work[sym']];
      }
      CountStrict(lens, s', |lens|);
    }
  }

  /** A code of at most root size ends at a multiple of the root intervals. */
  lemma RootAligned(lens: seq<nat>, s: nat, root: nat) returns (c: nat)
    requires Coded(lens, s) && lens[s] <= root <= MAXBITS
    ensures Start(lens, s) + Unit(lens[s]) == c * Unit(root)
  {
    var w := Codeword(lens, s);
    StartIsCodeword(lens, s);
    MulDistribute(w, 1, Unit(lens[s]));
    UnitRatio(lens[s], root);
    MulPositive(w + 1, Pow2(root - lens[s]));
    c := (w + 1) * Pow2(root - lens[s]);
    MulAssoc(w + 1, Pow2(root - lens[s]), Unit(root));
  }

  /** Starts the sub-table for symbol `s` at `next`, unless that takes too much space. */
  method NewTable(t: CodeType, lens: seq<nat>, count: array<nat>, table: array<Code>, start: nat, root: nat,
                  next: nat, used: nat, len: nat, huff: nat, ghost work: seq<nat>, ghost sym: nat, ghost s: nat)
      returns (full: bool, curr: nat, used': nat)
    requires |lens| <= MaxSymbols(t) && 1 <= root <= MAXBITS && Kraft(lens) <= Pow2(MAXBITS)
    requires AtSymbol(lens, work, count[..], sym, len, huff, s) && len > root
    requires start + Room(t, lens, root) <= table.Length && next == start + used && Pow2(root) <= used
    requires NeedsTable(t, lens, root, table[start..], s, used)
    modifies table
    ensures full ==> TooLarge(t, TableSize(lens, root)) && table[..] == old(table[..])
    ensures !full ==>
      && used' == used + Pow2(curr) <= TableSize(lens, root) && !TooLarge(t, used')
      && start + used' <= table.Length
      && Fits(lens, root, s, root, curr, huff % Pow2(root))
      && Partial(t, lens, root, table[start..], Start(lens, s), root, used, curr, huff % Pow2(root), used')
      && (forall k :: 0 <= k < start || start + used' <= k < table.Length ==> table[k] == old(table[k]))
  {
    hide Below, Kraft, Rev15, Reverse, Pow2, SizeUpTo, TableSize, StartsPrefix, FilledTo, Prefix, Left, Linked,
         Place, Count, LongestUpTo, Deepest;
    ghost var r := Count(lens, len, s);
    LongestIsLongest(lens, s);
    curr := SubTableBits(lens, count, len, root, Longest(lens), r);
    used' := used + Pow2(curr);
    NewSize(lens, root, s, curr);
    if TooLarge(t, used') {
      full := true;
      return;
    }
    full := false;
    var low := huff % Pow2(root);
    ghost var tab := table[start..];
    table[start + low] := Code(curr, root, next - start);
    assert table[start..] == tab[low := Code(curr, root, used)];
    NewSubTable(t, lens, root, tab, used, s, curr, low);
  }

  /** The loop invariant: `s` is the next symbol to enter, and the table holds the codes before it. */
  ghost predicate Filling(t: CodeType, lens: seq<nat>, root: nat, work: seq<nat>, count: seq<nat>, tab: seq<Code>,
                          sym: nat, len: nat, huff: nat, s: nat, drop: nat, off: nat, curr: nat, low: int, used: nat)
    requires |lens| <= MaxSymbols(t) && root <= MAXBITS
  {
    && AtSymbol(lens, work, count, sym, len, huff, s)
    && Fits(lens, root, s, drop, curr, low)
    && Partial(t, lens, root, tab, Start(lens, s), drop, off, curr, low, used)
    && off + Pow2(curr) == used <= TableSize(lens, root) && used <= |tab|
  }

  lemma StartFilling(t: CodeType, lens: seq<nat>, root: nat, work: seq<nat>, count: seq<nat>, tab: seq<Code>)
      returns (s: nat)
    requires |lens| <= MaxSymbols(t) && ValidLengths(lens)
    requires Longest(lens) > 0 && UsedFrom(lens, 1) <= root <= MAXBITS
    requires |count| == MAXBITS + 1 && forall l :: 0 <= l <= MAXBITS ==> count[l] == Total(lens, l)
    requires Sorted(lens, work) && Pow2(root) <= |tab|
    ensures Filling(t, lens, root, work, count, tab, 0, UsedFrom(lens, 1), 0, s, 0, 0, root, -1, Pow2(root))
    ensures Pow2(root) <= TableSize(lens, root)
  {
    hide Pow2, Below, Count, SizeUpTo, UsedFrom, Reverse;
    s := FirstSymbol(lens);
    SentIsReversedStart(lens, s);
    ReverseZero(MAXBITS);
    RootInTable(lens, root);
    CountStrict(lens, s, |lens|);
  }

  lemma RootInTable(lens: seq<nat>, root: nat)
    requires root <= MAXBITS
    ensures Pow2(root) <= TableSize(lens, root)
  {
    SizeMonotone(lens, root, 0, Pow2(root));
  }

  /** The accepted incomplete code has one symbol and fills one of two root entries. */
  lemma SingleCode(lens: seq<nat>)
    requires Longest(lens) == 1 && Kraft(lens) < Pow2(MAXBITS)
    ensures Kraft(lens) == Unit(1) && Rev15(Kraft(lens)) == 1
    ensures TableSize(lens, 1) == Pow2(1) == 2
  {
    hide Pow2, Rev15, Count, SizeUpTo, Reverse;
    SkipUnused(lens, 2, MAXBITS + 1);
    assert Total(lens, Longest(lens)) > 0;
    assert Below(lens, 1) == 0 && Below(lens, 2) == Total(lens, 1) * Unit(1);
    UnitDouble(1);
    if Total(lens, 1) >= 2 {
      MulMonotone(Unit(1), 2, Total(lens, 1));
    }
    ReverseBit(1);
    ReversedMultiple(1, 1, Unit(1));
    forall k: nat | Coded(lens, k)
      ensures lens[k] <= 1
    {
      LongestIsLongest(lens, k);
    }
    NoSubTables(lens, 1, Pow2(1));
  }

  lemma NothingLeft()
    ensures Rev15(Pow2(MAXBITS)) == 0
  {
    DivModUnique(Pow2(MAXBITS), Pow2(MAXBITS), 1, 0);
    Rev15Low(Pow2(MAXBITS));
    ReverseZero(MAXBITS);
  }

  /** The next table, if one is needed, is behind the entries used so far. */
  lemma TableNeeded(t: CodeType, lens: seq<nat>, root: nat, tab: seq<Code>, drop: nat, off: nat, curr: nat,
                    low: int, used: nat, s: nat, s': nat)
    requires |lens| <= MaxSymbols(t) && 1 <= root <= MAXBITS && Kraft(lens) <= Pow2(MAXBITS)
    requires Fits(lens, root, s, drop, curr, low) && Coded(lens, s')
    requires Start(lens, s') == Start(lens, s) + Unit(lens[s])
    requires lens[s'] >= lens[s] && (lens[s'] > lens[s] ==> Count(lens, lens[s'], s') == 0)
    requires forall k: nat :: Coded(lens, k) && lens[k] > lens[s] ==> lens[k] >= lens[s']
    requires Partial(t, lens, root, tab, Start(lens, s'), drop, off, curr, low, used)
    requires used == off + Pow2(curr)
    ensures if lens[s'] > root && SentCode(lens, s') % Pow2(root) != low
            then NeedsTable(t, lens, root, tab, s', used) && Pow2(root) <= used
            else Fits(lens, root, s', drop, curr, low)
  {
    hide Below, Kraft, Start, Place, SentCode, Rev15, Reverse, Pow2, Linked, Complete, RootOnly, Prefix;
    if lens[s'] <= root || SentCode(lens, s') % Pow2(root) == low {
      SamePrefixFits(t, lens, root, tab, Start(lens, s'), drop, off, curr, low, used, s');
    } else if drop == 0 {
      var c := RootAligned(lens, s, root);
      FirstPrefix(t, lens, root, tab, s', c);
    } else {
      NextPrefix(t, lens, root, tab, drop, off, curr, low, used, s');
    }
  }

  /** Whether the vector has at most the incompleteness that is allowed. */
  predicate Enterable(lens: seq<nat>) {
    && Longest(lens) > 0
    && (Kraft(lens) == Pow2(MAXBITS) || (Kraft(lens) < Pow2(MAXBITS) && Longest(lens) == 1))
  }

  /** The loop that enters all codes; `full` tells that the tables take too much space. */
  method EnterAll(t: CodeType, lens: seq<nat>, count: array<nat>, work: array<nat>,
                  table: array<Code>, start: nat, root: nat)
      returns (full: bool, used: nat, next: nat, drop: nat, len: nat, huff: nat, ghost curr: nat, ghost low: int)
    requires ValidLengths(lens) && |lens| <= MaxSymbols(t) && count != work && Enterable(lens)
    requires UsedFrom(lens, 1) <= root <= Longest(lens)
    requires count.Length == MAXBITS + 1
    requires forall l :: 0 <= l <= MAXBITS ==> count[l] == Total(lens, l)
    requires Sorted(lens, work[..])
    requires start + Room(t, lens, root) <= table.Length
    modifies table, count
    ensures full ==> TooLarge(t, TableSize(lens, root))
    ensures forall k :: 0 <= k < start || start + Room(t, lens, root) <= k < table.Length ==> table[k] == old(table[k])
    ensures !full ==>
      && start <= next && used == next - start + Pow2(curr) && start + used <= table.Length
      && !TooLarge(t, used)
      && Partial(t, lens, root, table[start..], Kraft(lens), drop, next - start, curr, low, used)
      && huff == Rev15(Kraft(lens)) && len == Longest(lens) && (drop == 0 ==> len <= root)
      && drop < len
      && (forall k :: start + used <= k < table.Length ==> table[k] == old(table[k]))
  {
    hide Below, Kraft, Start, Place, SentCode, Rev15, Reverse, Pow2, TableSize, SizeUpTo, StartsPrefix, Linked,
         FilledTo, RootOnly, Entered, NeedsTable, Sorted, Partial, Count, Shorter, LongestUpTo, UsedFrom, Deep, Direct,
         Complete, EntryOf, Unit, SubSize;
    var sym: nat, low': int := 0, -1;
    var bits := root;
    len, huff, next, drop := UsedFrom(lens, 1), 0, start, 0;
    curr, low := bits, low';
    used := Pow2(root);
    RootInTable(lens, root);
    full := true;
    if TooLarge(t, used) {
      return;
    }
    ghost var s: nat := StartFilling(t, lens, root, work[..], count[..], table[start..]);
    ghost var order := work[..];
    while true
      invariant work[..] == order
      invariant start <= next && start + used <= table.Length && used == next - start + Pow2(bits)
      invariant Filling(t, lens, root, work[..], count[..], table[start..],
                        sym, len, huff, s, drop, next - start, bits, low', used)
      invariant !TooLarge(t, used) && full
      invariant forall k :: 0 <= k < start || start + used <= k < table.Length ==> table[k] == old(table[k])
      decreases |lens| - sym
    {
      ghost var tab, done, counts := table[start..], s, count[..];
      PlaceBound(lens, s);
      EnterCode(t, lens, table, start, next - start, bits, drop, huff, work[sym], len);
      assert work[..] == order && count[..] == counts;
      EnterSymbol(t, lens, root, tab, table[start..], drop, next - start, bits, low', used, s);
      var last;
      last, sym, len, huff, s := NextCode(lens, count, work, sym, len, huff, s);
      if last {
        break;
      }
      TableNeeded(t, lens, root, table[start..], drop, next - start, bits, low', used, done, s);
      if len > root && huff % Pow2(root) != low' {
        if drop == 0 {
          drop := root;
        }
        next := next + Pow2(bits);
        var over;
        over, bits, used := NewTable(t, lens, count, table, start, root, next, used, len, huff, work[..], sym, s);
        if over {
          return;
        }
        low' := huff % Pow2(root);
      }
    }
    full := false;
    curr, low := bits, low';
  }

  /** Fills the decoding tables of a vector that is accepted and not empty. */
  method FillTables(t: CodeType, lens: seq<nat>, count: array<nat>, work: array<nat>,
                    table: array<Code>, start: nat, root: nat)
      returns (full: bool, used: nat)
    requires ValidLengths(lens) && |lens| <= MaxSymbols(t) && count != work && Enterable(lens)
    requires UsedFrom(lens, 1) <= root <= Longest(lens)
    requires count.Length == MAXBITS + 1
    requires forall l :: 0 <= l <= MAXBITS ==> count[l] == Total(lens, l)
    requires Sorted(lens, work[..])
    requires start + Room(t, lens, root) <= table.Length
    modifies table, count
    ensures full <==> TooLarge(t, TableSize(lens, root))
    ensures forall k :: 0 <= k < start || start + Room(t, lens, root) <= k < table.Length ==> table[k] == old(table[k])
    ensures !full ==>
      && used == TableSize(lens, root) && start + used <= table.Length
      && Decodes(t, lens, table[start..start + used], root) && Rooted(t, lens, table[start..start + used], root)
      && (forall k :: start + used <= k < table.Length ==> table[k] == old(table[k]))
  {
    hide Below, Reverse, Pow2, SizeUpTo, Count, LongestUpTo, UsedFrom, Decodes, Linked, FilledTo, Complete,
         Direct, EntryOf, Rooted, Partial, RootOnly, TableSize;
    var next, drop, len, huff;
    ghost var curr, low;
    full, used, next, drop, len, huff, curr, low := EnterAll(t, lens, count, work, table, start, root);
    if full {
      return;
    }
    ghost var tab := table[start..];
    if Kraft(lens) == Pow2(MAXBITS) {
      NothingLeft();
      FinishComplete(t, lens, root, tab, drop, next - start, curr, low, used);
      assert tab[..used] == table[start..start + used];
    } else {
      SingleCode(lens);
      assert root == 1 && drop == 0;
      OnlyRoot(t, lens, root, tab, Kraft(lens), next - start, curr, low, used);
    }
    if huff != 0 {
      table[next + huff] := Code(64, len - drop, 0);
      assert table[start..start + used][0] == tab[0] && table[start..start + used][1] == INVALID;
      FinishSingle(t, lens, tab, table[start..start + used]);
    }
  }

  lemma OnlyRoot(t: CodeType, lens: seq<nat>, root: nat, tab: seq<Code>, pos: nat, off: nat, curr: nat, low: int,
      used: nat)
    requires |lens| <= MaxSymbols(t) && root <= MAXBITS && Partial(t, lens, root, tab, pos, 0, off, curr, low, used)
    ensures off == 0 && used == Pow2(root) && RootOnly(t, lens, root, tab, pos)
  {
    hide RootOnly, Pow2, Linked, FilledTo;
  }

  /** The two entries of a root with one index bit. */
  lemma SingleEntries()
    ensures Rev15(0) == 0 < Unit(1) == Rev15(1) == Pow2(MAXBITS - 1) && Pow2(1) == 2
  {
    hide Reverse;
    SmallestPowers();
    ReverseBit(1);
    ReverseZero(MAXBITS);
    ShortWord(1, 1);
  }

  /** The first entry of such a root stays when the second one is marked invalid. */
  lemma RootOnlyAt(t: CodeType, lens: seq<nat>, tab: seq<Code>, tab': seq<Code>, pos: nat)
    requires |lens| <= MaxSymbols(t) && RootOnly(t, lens, 1, tab, pos) && pos == Unit(1)
    requires |tab'| == 2 <= |tab| && tab'[0] == tab[0]
    ensures RootOnly(t, lens, 1, tab', pos) && Direct(t, lens, 1, tab', 0)
  {
    hide Rev15, Direct, Pow2;
    SingleEntries();
    DirectFrame(t, lens, 1, tab, tab', 0);
  }

  lemma SingleRooted(t: CodeType, lens: seq<nat>, tab: seq<Code>)
    requires |lens| <= MaxSymbols(t) && |tab| == 2 && Direct(t, lens, 1, tab, 0) && tab[1] == INVALID
    ensures Rooted(t, lens, tab, 1)
  {
    hide Direct, EntryOf, Pow2;
    SmallestPowers();
    DirectNoLink(t, lens, 1, tab, 0);
  }

  lemma FinishSingle(t: CodeType, lens: seq<nat>, tab: seq<Code>, tab': seq<Code>)
    requires |lens| <= MaxSymbols(t) && Kraft(lens) == Unit(1)
    requires RootOnly(t, lens, 1, tab, Kraft(lens))
    requires |tab'| == 2 <= |tab| && tab'[0] == tab[0] && tab'[1] == INVALID
    ensures Decodes(t, lens, tab', 1) && Rooted(t, lens, tab', 1)
  {
    hide EntryOf, Decodes, Rev15, Pow2, Kraft, Covers, Rooted, RootOnly, Direct;
    SingleEntries();
    RootOnlyAt(t, lens, tab, tab', Kraft(lens));
    SingleCodeDecodes(t, lens, tab');
    SingleRooted(t, lens, tab');
  }

  lemma EntryNoLink(t: CodeType, s: nat, bits: nat)
    requires s < MaxSymbols(t)
    ensures !IsLink(t, EntryOf(t, s, bits))
  {
  }

  lemma EmptyCode(lens: seq<nat>)
    requires ValidLengths(lens) && Longest(lens) == 0
    ensures TableSize(lens, 1) == 2
  {
    assert Pow2(0) == 1 && Pow2(1) == 2;
    forall k: nat | k < |lens|
      ensures lens[k] == 0
    {
      if lens[k] != 0 {
        LongestIsLongest(lens, k);
      }
    }
    NoSubTables(lens, 1, Pow2(1));
  }

  lemma EmptyRoom(t: CodeType, lens: seq<nat>, request: nat)
    requires ValidLengths(lens) && Longest(lens) == 0
    ensures RootBits(lens, request) == 1 && TableSize(lens, 1) == 2 == Room(t, lens, 1)
    ensures Accepted(t, lens) && !TooLarge(t, 2)
  {
    EmptyCode(lens);
  }

  lemma NoCodeRooted(t: CodeType, lens: seq<nat>, tab: seq<Code>)
    requires tab == [INVALID, INVALID]
    ensures Rooted(t, lens, tab, 1)
  {
    assert Pow2(1) == 2 by { assert Pow2(0) == 1; }
  }

  /** The shortest and the longest code length that is used; `max` is 0 when none is. */
  method UsedLengths(lens: seq<nat>, count: array<nat>) returns (min: nat, max: nat)
    requires count.Length == MAXBITS + 1
    requires forall l :: 0 <= l <= MAXBITS ==> count[l] == Total(lens, l)
    ensures max == Longest(lens) && (max > 0 ==> min == UsedFrom(lens, 1))
  {
    hide Count;
    max := MAXBITS;
    while max >= 1 && count[max] == 0
      invariant 0 <= max <= MAXBITS
      invariant LongestUpTo(lens, max) == Longest(lens)
    {
      max := max - 1;
    }
    min := 1;
    while min < max && count[min] == 0
      invariant 1 <= min <= MAXBITS && (max > 0 ==> min <= max)
      invariant UsedFrom(lens, min) == UsedFrom(lens, 1)
    {
      min := min + 1;
    }
  }

  /**
    Builds the decoding tables of the canonical code with the given lengths at `start` in `table`.
    Returns 0 with the end of the tables and the actual root size, -1 for lengths that make no
    usable code, or 1 when the tables take more than the space that is set aside.
   */
  method InflateTable(t: CodeType, lens: seq<nat>, table: array<Code>, start: nat, request: nat, work: array<nat>)
      returns (ret: int, end: nat, bits: nat)
    requires ValidLengths(lens) && |lens| <= MaxSymbols(t) && |lens| <= work.Length
    requires start + Room(t, lens, RootBits(lens, request)) <= table.Length
    modifies table, work
    ensures ret == if !Accepted(t, lens) then -1
                   else if TooLarge(t, TableSize(lens, RootBits(lens, request))) then 1 else 0
    ensures ret != 0 ==> end == start && bits == request
    ensures ret == 0 ==>
      && bits == RootBits(lens, request) && end == start + TableSize(lens, bits) <= table.Length
      && Decodes(t, lens, table[start..end], bits) && Rooted(t, lens, table[start..end], bits)
    ensures forall k :: 0 <= k < table.Length && !(start <= k < start + Room(t, lens, RootBits(lens, request)))
              ==> table[k] == old(table[k])
  {
    hide Below, Kraft, Pow2, SizeUpTo, TableSize, Count, Decodes, Sorted, Rooted, Room, Unit;
    var count := CountLengths(lens);
    var min, max := UsedLengths(lens, count);
    var root := request;
    if root > max {
      root := max;
    }
    if max == 0 {
      EmptyRoom(t, lens, request);
      table[start] := Code(64, 1, 0);
      table[start + 1] := Code(64, 1, 0);
      NoCodeDecodes(t, lens, table[start..start + 2]);
      NoCodeRooted(t, lens, table[start..start + 2]);
      return 0, start + 2, 1;
    }
    if root < min {
      root := min;
    }
    var left := CodesLeft(lens, count);
    if left < 0 {
      return -1, start, request;
    }
    if left > 0 && (t == Codes || max != 1) {
      return -1, start, request;
    }
    SortSymbols(lens, count, work);
    var full, used := FillTables(t, lens, count, work, table, start, root);
    if full {
      return 1, start, request;
    }
    return 0, start + used, root;
  }
}
