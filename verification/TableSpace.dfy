/**
  How large the decoding tables can get: the space that the decoder sets aside for them is always enough, and no less
  would be (ENOUGH_LENS and ENOUGH_DISTS of zlib's inftrees.h, found there by an exhaustive search).
 */
module TableSpace {
  import opened Arithmetic
  import opened HuffmanCode
  import opened DecodingTable
  import InfTrees

  // ---------- open nodes and used symbols ----------

  /** How many nodes of level `l` of the code's tree have no symbol there or above. */
  function Open(lens: seq<nat>, l: nat): int {
    if l == 0 then 1 else 2 * Open(lens, l - 1) - Total(lens, l)
  }

  /** How many symbols have lengths from 1 to `l`. */
  function Used(lens: seq<nat>, l: nat): nat {
    InfTrees.Shorter(lens, l + 1, |lens|)
  }

  /** The open nodes take what the codes leave. */
  lemma {:induction false} OpenIs(lens: seq<nat>, l: nat)
    requires l <= MAXBITS
    ensures Below(lens, l + 1) + Open(lens, l) * Unit(l) == Pow2(MAXBITS)
  {
    hide Pow2, Count;
    if l == 0 {
      assert Open(lens, 0) * Unit(0) == Pow2(MAXBITS);
    } else {
      OpenIs(lens, l - 1);
      UnitDouble(l);
      OpenNext(Open(lens, l - 1), Total(lens, l), Unit(l));
    }
  }

  lemma OpenNext(o: int, t: int, u: int)
    ensures o * (2 * u) == t * u + (2 * o - t) * u
  {
    MulAssoc(o, 2, u);
    MulDistribute(2 * o - t, t, u);
  }

  lemma OpenSign(lens: seq<nat>, l: nat)
    requires l <= MAXBITS && Kraft(lens) == Pow2(MAXBITS)
    ensures Open(lens, l) >= 0
    ensures l < Longest(lens) ==> Open(lens, l) >= 1
    ensures l == MAXBITS ==> Open(lens, l) == 0
  {
    hide Pow2;
    OpenIs(lens, l);
    BelowMonotone(lens, l + 1, MAXBITS + 1);
    var o, u := Open(lens, l), Unit(l);
    if l < Longest(lens) {
      var m := Longest(lens);
      BelowMonotone(lens, l + 1, m);
      BelowMonotone(lens, m + 1, MAXBITS + 1);
      MulMonotone(Unit(m), 1, Total(lens, m));
      if o < 1 {
        MulMonotone(u, o, 0);
      }
    }
    if o < 0 {
      MulMonotone(u, o, -1);
    } else if o > 0 {
      MulMonotone(u, 1, o);
    }
  }

  lemma UsedAtMost(lens: seq<nat>)
    ensures Used(lens, MAXBITS) <= |lens|
  {
    InfTrees.ShorterBound(lens, MAXBITS + 1, |lens|);
  }

  // ---------- a sub-table, level by level ----------

  /** What a level adds to the sub-tables that go deeper than it: a first index bit, and a doubling each further one. */
  function Weight(root: nat, k: nat): nat
    requires root <= k
  {
    if k == root then 2 else Pow2(k - root)
  }

  /** The codes up to length `k` end within the prefix `q` or before it. */
  predicate Deeper(lens: seq<nat>, root: nat, q: nat, k: nat)
    requires root <= k < MAXBITS
  {
    Below(lens, k + 1) < (q + 1) * Unit(root)
  }

  function Layers(lens: seq<nat>, root: nat, q: nat, l: nat): nat
    requires root <= l <= MAXBITS
  {
    if l == root then 0
    else Layers(lens, root, q, l - 1) + if Deeper(lens, root, q, l - 1) then Weight(root, l - 1) else 0
  }

  lemma {:induction false} LayersAre(lens: seq<nat>, root: nat, q: nat, d: nat, l: nat)
    requires root <= l <= MAXBITS
    requires forall k :: root <= k < l ==> (Deeper(lens, root, q, k) <==> k < d)
    ensures Layers(lens, root, q, l) == if d <= root || l == root then 0 else Pow2(Min(d, l) - root)
  {
    hide Deeper;
    if l > root {
      LayersAre(lens, root, q, d, l - 1);
    }
  }

  lemma {:induction false} DeepestWitness(lens: seq<nat>, root: nat, q: nat, n: nat) returns (s: nat)
    requires root <= MAXBITS && n <= |lens| && Deepest(lens, root, q, n) > 0
    ensures Coded(lens, s) && lens[s] == Deepest(lens, root, q, n) > root && Start(lens, s) / Unit(root) == q
  {
    if Deepest(lens, root, q, n) == Deepest(lens, root, q, n - 1) {
      s := DeepestWitness(lens, root, q, n - 1);
    } else {
      s := n - 1;
    }
  }

  lemma {:induction false} DeepestAtLeast(lens: seq<nat>, root: nat, q: nat, n: nat, s: nat)
    requires root <= MAXBITS && s < n <= |lens|
    requires Coded(lens, s) && lens[s] > root && Start(lens, s) / Unit(root) == q
    ensures Deepest(lens, root, q, n) >= lens[s]
  {
    if s < n - 1 {
      DeepestAtLeast(lens, root, q, n - 1, s);
    }
  }

  /** Whatever covers the last number with a prefix, and is longer than the prefix, begins with it. */
  lemma LastInPrefix(lens: seq<nat>, root: nat, q: nat, s: nat)
    requires root <= MAXBITS && Coded(lens, s) && lens[s] > root
    requires (q + 1) * Unit(root) >= 1 && Covers(lens, s, (q + 1) * Unit(root) - 1)
    ensures Start(lens, s) / Unit(root) == q
  {
    hide Pow2, Below;
    var u, p := Unit(lens[s]), Pow2(lens[s] - root);
    UnitRatio(root, lens[s]);
    StartIsCodeword(lens, s);
    var c := Codeword(lens, s);
    MulAssoc(q + 1, p, u);
    MulDistribute((q + 1) * p, -1, u);
    SameMultiple(c, (q + 1) * p - 1, u - 1, u);
    MulDistribute(q, 1, Unit(root));
    DivModUnique(Start(lens, s), Unit(root), q, Unit(root) - u);
  }

  lemma DeeperThan(lens: seq<nat>, root: nat, q: nat, k: nat)
    requires root <= k < MAXBITS && Kraft(lens) == Pow2(MAXBITS) && q < Pow2(root)
    ensures Deeper(lens, root, q, k) <==> k < Deepest(lens, root, q, |lens|)
  {
    hide Pow2;
    var d, u := Deepest(lens, root, q, |lens|), Unit(root);
    MulDistribute(q, 1, u);
    if k < d {
      var s := DeepestWitness(lens, root, q, |lens|);
      BelowMonotone(lens, k + 1, d);
      IntervalEnd(lens, s);
      DivRange(Start(lens, s), u, q + 1);
    }
    if Deeper(lens, root, q, k) {
      var v := (q + 1) * u - 1;
      Pow2Add(root, MAXBITS - root);
      MulMonotone(u, q + 1, Pow2(root));
      MulPositive(q, u);
      var s := SomeSymbol(lens, MAXBITS + 1, v);
      IntervalEnd(lens, s);
      if lens[s] <= k {
        BelowMonotone(lens, lens[s] + 1, k + 1);
      }
      LastInPrefix(lens, root, q, s);
      DeepestAtLeast(lens, root, q, |lens|, s);
    }
  }

  lemma SubSizeIs(lens: seq<nat>, root: nat, q: nat)
    requires root <= MAXBITS && ValidLengths(lens) && Kraft(lens) == Pow2(MAXBITS) && q < Pow2(root)
    ensures SubSize(lens, root, q) == Layers(lens, root, q, MAXBITS)
  {
    hide Pow2, Deeper, Below;
    var d := Deepest(lens, root, q, |lens|);
    if d > 0 {
      var s := DeepestWitness(lens, root, q, |lens|);
    }
    forall k | root <= k < MAXBITS
      ensures Deeper(lens, root, q, k) <==> k < d
    {
      DeeperThan(lens, root, q, k);
    }
    LayersAre(lens, root, q, d, MAXBITS);
  }

  // ---------- all sub-tables, level by level ----------

  /** How many of the first `n` prefixes have codes longer than `k`. */
  function Reached(lens: seq<nat>, root: nat, n: nat, k: nat): nat
    requires root <= k < MAXBITS
  {
    if n == 0 then 0 else Reached(lens, root, n - 1, k) + if Deeper(lens, root, n - 1, k) then 1 else 0
  }

  function Sum(lens: seq<nat>, root: nat, n: nat, l: nat): nat
    requires root <= l <= MAXBITS
  {
    if l == root then 0
    else
      MulPositive(Reached(lens, root, n, l - 1), Weight(root, l - 1));
      Sum(lens, root, n, l - 1) + Reached(lens, root, n, l - 1) * Weight(root, l - 1)
  }

  lemma {:induction false} SumNext(lens: seq<nat>, root: nat, n: nat, l: nat)
    requires root <= l <= MAXBITS
    ensures Sum(lens, root, n + 1, l) == Sum(lens, root, n, l) + Layers(lens, root, n, l)
  {
    hide Deeper, Weight;
    if l > root {
      SumNext(lens, root, n, l - 1);
      MulDistribute(Reached(lens, root, n, l - 1), 1, Weight(root, l - 1));
    }
  }

  lemma {:induction false} SumNone(lens: seq<nat>, root: nat, l: nat)
    requires root <= l <= MAXBITS
    ensures Sum(lens, root, 0, l) == 0
  {
    if l > root {
      SumNone(lens, root, l - 1);
    }
  }

  lemma {:induction false} SizeIsSum(lens: seq<nat>, root: nat, n: nat)
    requires root <= MAXBITS && ValidLengths(lens) && Kraft(lens) == Pow2(MAXBITS) && n <= Pow2(root)
    ensures SizeUpTo(lens, root, n) == Pow2(root) + Sum(lens, root, n, MAXBITS)
  {
    hide Pow2, SubSize, Sum, Layers, Kraft;
    if n == 0 {
      SumNone(lens, root, MAXBITS);
    } else {
      SizeIsSum(lens, root, n - 1);
      SumNext(lens, root, n - 1, MAXBITS);
      SubSizeIs(lens, root, n - 1);
    }
  }

  lemma {:induction false} ReachedIs(lens: seq<nat>, root: nat, n: nat, k: nat)
    requires root <= k < MAXBITS
    ensures Reached(lens, root, n, k) == Max(0, n - Below(lens, k + 1) / Unit(root))
  {
    hide Pow2, Below;
    if n > 0 {
      ReachedIs(lens, root, n - 1, k);
      DivRange(Below(lens, k + 1), Unit(root), n);
    }
    DivMod(Below(lens, k + 1), Unit(root));
  }

  /** How often `p` goes into `x`, rounded up. */
  function Ceiling(x: int, p: nat): int
    requires p > 0
  {
    (x + p - 1) / p
  }

  lemma CeilingBounds(x: int, p: nat)
    requires p > 0
    ensures x <= Ceiling(x, p) * p <= x + p - 1
    ensures p == 1 ==> Ceiling(x, p) == x
  {
    DivMod(x + p - 1, p);
  }

  /** What is left of `n` multiples of `p` times `u` when all but `o` times `u` is taken. */
  lemma Rest(n: int, p: nat, u: nat, o: int)
    requires p > 0 && u > 0 && p * u > 0
    ensures n - ((n * p - o) * u) / (p * u) == Ceiling(o, p)
  {
    var x := n * p - o;
    DivMod(x, p);
    var q, r := x / p, x % p;
    MulDistribute(q * p, r, u);
    MulAssoc(q, p, u);
    MulPositive(r, u);
    MulMonotone(u, r + 1, p);
    MulDistribute(r, 1, u);
    DivModUnique(x * u, p * u, q, r * u);
    MulDistribute(n, -q, p);
    assert o + p - 1 == (n - q) * p + (p - 1 - r);
    DivModUnique(o + p - 1, p, n - q, p - 1 - r);
  }

  /** The prefixes with codes longer than `k`: enough for the open nodes of level `k`. */
  lemma ReachedAll(lens: seq<nat>, root: nat, k: nat)
    requires root <= k < MAXBITS && Kraft(lens) == Pow2(MAXBITS)
    ensures Reached(lens, root, Pow2(root), k) == Ceiling(Open(lens, k), Pow2(k - root))
  {
    hide Pow2, Below, Open, Reached;
    var n, p, u, o := Pow2(root), Pow2(k - root), Unit(k), Open(lens, k);
    OpenSign(lens, k);
    CeilingBounds(o, p);
    ReachedIs(lens, root, n, k);
    UnitRatio(root, k);
    OpenIs(lens, k);
    Pow2Add(root, k - root);
    Pow2Add(k, MAXBITS - k);
    MulDistribute(n * p - o, o, u);
    Rest(n, p, u, o);
    if Ceiling(o, p) < 0 {
      MulMonotone(p, Ceiling(o, p), -1);
    }
  }

  /** What the sub-tables take together. */
  function Spread(lens: seq<nat>, root: nat, l: nat): int
    requires root <= l <= MAXBITS
  {
    if l == root then 0
    else Spread(lens, root, l - 1) + Ceiling(Open(lens, l - 1), Pow2(l - 1 - root)) * Weight(root, l - 1)
  }

  lemma {:induction false} SumIsSpread(lens: seq<nat>, root: nat, l: nat)
    requires root <= l <= MAXBITS && Kraft(lens) == Pow2(MAXBITS)
    ensures Sum(lens, root, Pow2(root), l) == Spread(lens, root, l)
  {
    hide Pow2, Kraft, Open, Ceiling, Weight, Reached;
    if l > root {
      SumIsSpread(lens, root, l - 1);
      ReachedAll(lens, root, l - 1);
    }
  }

  /** The size of the table of a complete code, from the numbers of its codes of each length. */
  lemma TableSizeIs(lens: seq<nat>, root: nat)
    requires root <= MAXBITS && ValidLengths(lens) && Kraft(lens) == Pow2(MAXBITS)
    ensures TableSize(lens, root) == Pow2(root) + Spread(lens, root, MAXBITS)
  {
    hide Pow2, Kraft, Spread, Sum, SizeUpTo;
    SizeIsSum(lens, root, Pow2(root));
    SumIsSpread(lens, root, MAXBITS);
  }

  // ---------- the largest size ----------

  /** What rounding up at each level can add. */
  function Slack(root: nat, l: nat): nat
    requires root < l
  {
    if l == root + 1 then 0 else Slack(root, l - 1) + Pow2(l - 1 - root) - 1
  }

  lemma {:induction false} SpreadAtMost(lens: seq<nat>, root: nat, l: nat)
    requires root < l <= MAXBITS
    ensures Spread(lens, root, l) <= Used(lens, l) - Used(lens, root) + Open(lens, l) + Slack(root, l)
  {
    hide Pow2, Ceiling, Count;
    var o, p := Open(lens, l - 1), Pow2(l - 1 - root);
    CeilingBounds(o, p);
    if l == root + 1 {
      SmallestPowers();
      assert Spread(lens, root, root) == 0;
    } else {
      SpreadAtMost(lens, root, l - 1);
    }
  }

  /** A table has an even number of entries behind the root. */
  lemma {:induction false} SpreadEven(lens: seq<nat>, root: nat, l: nat)
    requires root <= l <= MAXBITS
    ensures Spread(lens, root, l) % 2 == 0
  {
    hide Open, Ceiling, Pow2, Weight;
    if l > root {
      SpreadEven(lens, root, l - 1);
      WeightEven(root, l - 1);
      EvenTimes(Ceiling(Open(lens, l - 1), Pow2(l - 1 - root)), Weight(root, l - 1));
    }
  }

  lemma WeightEven(root: nat, k: nat)
    requires root <= k
    ensures Weight(root, k) % 2 == 0
  {
  }

  lemma EvenTimes(c: int, w: nat)
    requires w % 2 == 0
    ensures (c * w) % 2 == 0
  {
    MulAssoc(c, w / 2, 2);
    ModOfSum(0, c * (w / 2), 2);
  }

  lemma LongCodes(lens: seq<nat>, root: nat)
    requires root < MAXBITS && Kraft(lens) == Pow2(MAXBITS)
    ensures Used(lens, MAXBITS) - Used(lens, root) >= 2 * Open(lens, root)
  {
    LongCodesUpTo(lens, root, MAXBITS);
    OpenSign(lens, MAXBITS);
  }

  lemma {:induction false} LongCodesUpTo(lens: seq<nat>, root: nat, l: nat)
    requires root < l <= MAXBITS && Kraft(lens) == Pow2(MAXBITS)
    ensures Used(lens, l) - Used(lens, root) + Open(lens, l) >= 2 * Open(lens, root)
  {
    hide Kraft, Pow2, Count;
    if l > root + 1 {
      LongCodesUpTo(lens, root, l - 1);
      OpenSign(lens, l - 1);
    } else {
      assert Used(lens, l) == Used(lens, root) + Total(lens, l);
    }
  }

  lemma LongestBound(lens: seq<nat>)
    ensures Longest(lens) <= MAXBITS
  {
  }

  /** Each symbol leaves at least half of what was open. */
  lemma {:induction false} FewShort(lens: seq<nat>, l: nat)
    requires l < Longest(lens) && Kraft(lens) == Pow2(MAXBITS)
    ensures Open(lens, l) * Pow2(Used(lens, l)) >= Pow2(l)
  {
    hide Kraft, Count, Longest, Pow2;
    if l == 0 {
    } else {
      FewShort(lens, l - 1);
      LongestBound(lens);
      OpenSign(lens, l - 1);
      OpenSign(lens, l);
      Pow2Add(1, l - 1);
      SmallestPowers();
      Halved(Open(lens, l), Open(lens, l - 1), Total(lens, l), Used(lens, l - 1));
    }
  }

  lemma Halved(o: int, before: int, t: nat, used: nat)
    requires o == 2 * before - t && o >= 1
    ensures o * Pow2(used + t) >= 2 * (before * Pow2(used))
  {
    hide Pow2;
    HalvedAtMost(o, t);
    Pow2Add(used, t);
    var a := Pow2(used);
    MulMonotone(a, 2 * before, o * Pow2(t));
    MulAssoc(2, before, a);
    MulAssoc(o, Pow2(t), a);
  }

  lemma {:induction false} HalvedAtMost(o: int, t: nat)
    requires o >= 1
    ensures o * Pow2(t) >= o + t
  {
    if t > 0 {
      HalvedAtMost(o, t - 1);
      MulAssoc(o, 2, Pow2(t - 1));
    }
  }

  /** With symbols that are few, some of them long, much is left for the long ones. */
  lemma ManyOpen(o: int, s: nat, m: nat, c: nat)
    requires o * Pow2(s) >= Pow2(c + m) && s <= m
    ensures o >= Pow2(c)
  {
    hide Pow2;
    Pow2Add(c, m);
    Pow2Monotone(s, m);
    if o < Pow2(c) {
      MulMonotone(Pow2(s), o, Pow2(c) - 1);
      MulMonotone(Pow2(c) - 1, Pow2(s), Pow2(m));
      MulDistribute(Pow2(c), -1, Pow2(m));
    }
  }

  lemma LensSpread(lens: seq<nat>)
    requires ValidLengths(lens) && |lens| <= 286 && Kraft(lens) == Pow2(MAXBITS) && Longest(lens) > 10
    ensures Spread(lens, 10, MAXBITS) <= 308
  {
    hide Pow2, Kraft, Spread, Used, Open, Longest, Slack;
    var s := Used(lens, 10);
    UsedAtMost(lens);
    OpenSign(lens, MAXBITS);
    SpreadAtMost(lens, 10, MAXBITS);
    SpreadEven(lens, 10, MAXBITS);
    LensSlack();
    FewShort(lens, 10);
    LongCodes(lens, 10);
    if s <= 2 {
      ManyOpen(Open(lens, 10), s, 2, 8);
      PowerOf8();
    }
  }

  lemma DistsSpread(lens: seq<nat>)
    requires ValidLengths(lens) && |lens| <= 30 && Kraft(lens) == Pow2(MAXBITS) && Longest(lens) > 9
    ensures Spread(lens, 9, MAXBITS) <= 80
  {
    hide Pow2, Kraft, Spread, Used, Open, Longest, Slack;
    var s := Used(lens, 9);
    UsedAtMost(lens);
    OpenSign(lens, MAXBITS);
    SpreadAtMost(lens, 9, MAXBITS);
    SpreadEven(lens, 9, MAXBITS);
    DistsSlack();
    FewShort(lens, 9);
    LongCodes(lens, 9);
    if s <= 5 {
      ManyOpen(Open(lens, 9), s, 5, 4);
      PowerOf8();
    }
  }

  lemma PowerOf8()
    ensures Pow2(4) == 16 && Pow2(8) == 256
  {
  }

  lemma LensSlack()
    ensures Slack(10, MAXBITS) == 26
  {
    assert Slack(10, 11) == 0 && Slack(10, 12) == 1 && Slack(10, 13) == 4 && Slack(10, 14) == 11;
  }

  lemma DistsSlack()
    ensures Slack(9, MAXBITS) == 57
  {
    assert Slack(9, 10) == 0 && Slack(9, 11) == 1 && Slack(9, 12) == 4 && Slack(9, 13) == 11 && Slack(9, 14) == 26;
  }

  // ---------- without sub-tables ----------

  lemma UsedFromAtMost(lens: seq<nat>, l: nat, m: nat)
    requires 1 <= l <= m <= MAXBITS && Total(lens, m) > 0
    ensures UsedFrom(lens, l) <= m
    decreases MAXBITS - l
  {
  }

  /** A complete code of so few symbols has short ones too. */
  lemma SomeShort(lens: seq<nat>, l: nat)
    requires Kraft(lens) == Pow2(MAXBITS) && l < Longest(lens) && 2 * Pow2(l) > |lens|
    ensures Used(lens, l) > 0 && UsedFrom(lens, 1) <= l
  {
    hide Kraft, Pow2, Open, Used;
    FewShort(lens, l);
    LongCodes(lens, l);
    UsedAtMost(lens);
    SmallestPowers();
    assert Used(lens, l) > 0;
    UsedShort(lens, l);
  }

  lemma {:induction false} UsedShort(lens: seq<nat>, l: nat)
    requires Used(lens, l) > 0 && l <= MAXBITS
    ensures 1 <= l && UsedFrom(lens, 1) <= l
  {
    hide Count;
    if Total(lens, l) > 0 {
      UsedFromAtMost(lens, 1, l);
    } else {
      UsedShort(lens, l - 1);
    }
  }

  /** A table for codes that are not longer than the root's index is only the root. */
  lemma ShortTable(lens: seq<nat>, request: nat)
    requires 1 <= request <= MAXBITS && Longest(lens) <= request
    ensures var root := RootBits(lens, request);
      TableSize(lens, root) == Pow2(root) && root == Max(1, Longest(lens))
  {
    hide Pow2;
    var m, root := Longest(lens), RootBits(lens, request);
    if m > 0 {
      UsedFromAtMost(lens, 1, m);
    }
    forall k: nat | Coded(lens, k)
      ensures lens[k] <= root
    {
      InfTrees.LongestIsLongest(lens, k);
    }
    NoSubTables(lens, root, Pow2(root));
  }

  /** No code for literals and lengths that the decoder can meet takes more than the space for it. */
  lemma LensFit(lens: seq<nat>)
    requires ValidLengths(lens) && |lens| <= 286 && Accepted(Lens, lens)
    ensures TableSize(lens, RootBits(lens, 10)) <= ENOUGH_LENS
  {
    hide Pow2, Kraft, Spread, Longest, UsedFrom, TableSize;
    PowerOf10();
    if Longest(lens) <= 10 {
      ShortTable(lens, 10);
      Pow2Monotone(RootBits(lens, 10), 10);
    } else {
      SomeShort(lens, 10);
      TableSizeIs(lens, 10);
      LensSpread(lens);
    }
  }

  /** No code for distances either. */
  lemma DistsFit(lens: seq<nat>)
    requires ValidLengths(lens) && |lens| <= 30 && Accepted(Dists, lens)
    ensures TableSize(lens, RootBits(lens, 9)) <= ENOUGH_DISTS
  {
    hide Pow2, Kraft, Spread, Longest, UsedFrom, TableSize;
    PowerOf10();
    if Longest(lens) <= 9 {
      ShortTable(lens, 9);
      Pow2Monotone(RootBits(lens, 9), 9);
    } else {
      SomeShort(lens, 9);
      TableSizeIs(lens, 9);
      DistsSpread(lens);
    }
  }

  lemma PowerOf10()
    ensures Pow2(9) == 512 && Pow2(10) == 1024
  {
  }

  // ---------- codes that take all of the space ----------

  /** The code lengths of symbols that are ordered by them: `ends[l]` symbols have length `l` or less. */
  function Ordered(ends: seq<nat>): seq<nat>
    requires |ends| == MAXBITS + 1
  {
    seq(ends[MAXBITS], (i: nat) => LengthAt(ends, i, MAXBITS))
  }

  /** The first length up to `l` with more than `i` symbols up to it, or `l`. */
  function LengthAt(ends: seq<nat>, i: nat, l: nat): (r: nat)
    requires l < |ends|
    ensures r <= l
  {
    if l > 0 && i < ends[l - 1] then LengthAt(ends, i, l - 1) else l
  }

  predicate Rising(ends: seq<nat>) {
    |ends| == MAXBITS + 1 && ends[0] == 0 && forall l :: 0 < l < |ends| ==> ends[l - 1] <= ends[l]
  }

  lemma {:induction false} EndsRise(ends: seq<nat>, k: nat, l: nat)
    requires Rising(ends) && k <= l < |ends|
    ensures ends[k] <= ends[l]
  {
    if k < l {
      EndsRise(ends, k, l - 1);
    }
  }

  lemma {:induction false} LengthAtIs(ends: seq<nat>, i: nat, l: nat, k: nat)
    requires Rising(ends) && 1 <= k <= l < |ends| && i < ends[l]
    ensures LengthAt(ends, i, l) == k <==> ends[k - 1] <= i < ends[k]
  {
    if i < ends[l - 1] {
      EndsRise(ends, k - 1, l - 1);
      if k == l {
      } else {
        LengthAtIs(ends, i, l - 1, k);
      }
    } else {
      if k < l {
        EndsRise(ends, k, l - 1);
      }
    }
  }

  lemma {:induction false} CountBetween(lens: seq<nat>, l: nat, a: nat, b: nat, n: nat)
    requires a <= b <= |lens| && n <= |lens|
    requires forall i :: 0 <= i < |lens| ==> (lens[i] == l <==> a <= i < b)
    ensures Count(lens, l, n) == Max(0, Min(n, b) - a)
  {
    if n > 0 {
      CountBetween(lens, l, a, b, n - 1);
    }
  }

  lemma OrderedTotal(ends: seq<nat>, l: nat)
    requires Rising(ends) && 1 <= l <= MAXBITS
    ensures Total(Ordered(ends), l) == ends[l] - ends[l - 1]
  {
    var lens := Ordered(ends);
    EndsRise(ends, l, MAXBITS);
    forall i | 0 <= i < |lens|
      ensures lens[i] == l <==> ends[l - 1] <= i < ends[l]
    {
      LengthAtIs(ends, i, MAXBITS, l);
    }
    CountBetween(lens, l, ends[l - 1], ends[l], |lens|);
  }

  /** The open nodes of each level, from the numbers of symbols. */
  predicate OpensAre(ends: seq<nat>, opens: seq<nat>) {
    && |opens| == MAXBITS + 1 == |ends| && opens[0] == 1 && opens[MAXBITS] == 0
    && forall l :: 0 < l < |ends| ==> opens[l] + ends[l] == 2 * opens[l - 1] + ends[l - 1]
  }

  lemma {:induction false} OrderedOpen(ends: seq<nat>, opens: seq<nat>, l: nat)
    requires Rising(ends) && OpensAre(ends, opens) && l <= MAXBITS
    ensures Open(Ordered(ends), l) == opens[l]
  {
    hide Ordered, Count;
    if l > 0 {
      OrderedOpen(ends, opens, l - 1);
      OrderedTotal(ends, l);
    }
  }

  /** Such lengths make a complete code. */
  lemma OrderedCode(ends: seq<nat>, opens: seq<nat>)
    requires Rising(ends) && OpensAre(ends, opens)
    ensures var lens := Ordered(ends);
      && |lens| == ends[MAXBITS] && ValidLengths(lens) && Kraft(lens) == Pow2(MAXBITS)
      && forall l: nat :: l <= MAXBITS ==> Open(lens, l) == opens[l]
  {
    hide Pow2, Open, Below;
    var lens := Ordered(ends);
    forall l: nat | l <= MAXBITS
      ensures Open(lens, l) == opens[l]
    {
      OrderedOpen(ends, opens, l);
    }
    OpenIs(lens, MAXBITS);
  }

  lemma OrderedRoot(ends: seq<nat>, opens: seq<nat>, request: nat)
    requires Rising(ends) && OpensAre(ends, opens) && 1 <= request <= MAXBITS
    requires ends[1] > 0 && ends[MAXBITS - 1] < ends[MAXBITS]
    ensures RootBits(Ordered(ends), request) == request
  {
    hide Ordered, Count;
    OrderedTotal(ends, 1);
    OrderedTotal(ends, MAXBITS);
  }

  const LARGEST_LENS: seq<nat> := [0, 1, 2, 3, 3, 3, 3, 3, 3, 3, 3, 252, 257, 266, 283, 285]
  const LARGEST_DISTS: seq<nat> := [0, 1, 2, 3, 4, 5, 6, 6, 6, 6, 19, 24, 25, 26, 27, 29]

  /** The space for literal and length codes could not be smaller. */
  lemma LensFull()
    ensures var lens := Ordered(LARGEST_LENS);
      |lens| <= 286 && ValidLengths(lens) && Accepted(Lens, lens) && TableSize(lens, RootBits(lens, 10)) == ENOUGH_LENS
  {
    hide Pow2, Ordered, Open, Kraft, RootBits, TableSize, Longest, Spread, Ceiling, Weight;
    var lens := Ordered(LARGEST_LENS);
    var opens: seq<nat> := [1, 1, 1, 1, 2, 4, 8, 16, 32, 64, 128, 7, 9, 9, 1, 0];
    OrderedCode(LARGEST_LENS, opens);
    OrderedRoot(LARGEST_LENS, opens, 10);
    TableSizeIs(lens, 10);
    PowerOf10();
    LensLevels(lens);
  }

  lemma LensLevels(lens: seq<nat>)
    requires Open(lens, 10) == 128 && Open(lens, 11) == 7 && Open(lens, 12) == 9 && Open(lens, 13) == 9
    requires Open(lens, 14) == 1
    ensures Spread(lens, 10, MAXBITS) == 308
  {
    hide Open;
    assert Spread(lens, 10, 11) == 256;
    assert Spread(lens, 10, 12) == 264;
    assert Spread(lens, 10, 13) == 276;
    assert Spread(lens, 10, 14) == 292;
  }

  /** Nor could the space for distance codes. */
  lemma DistsFull()
    ensures var lens := Ordered(LARGEST_DISTS);
      |lens| <= 30 && ValidLengths(lens) && Accepted(Dists, lens) && TableSize(lens, RootBits(lens, 9)) == ENOUGH_DISTS
  {
    hide Pow2, Ordered, Open, Kraft, RootBits, TableSize, Longest, Spread, Ceiling, Weight;
    var lens := Ordered(LARGEST_DISTS);
    var opens: seq<nat> := [1, 1, 1, 1, 1, 1, 1, 2, 4, 8, 3, 1, 1, 1, 1, 0];
    OrderedCode(LARGEST_DISTS, opens);
    OrderedRoot(LARGEST_DISTS, opens, 9);
    TableSizeIs(lens, 9);
    PowerOf10();
    DistsLevels(lens);
  }

  lemma DistsLevels(lens: seq<nat>)
    requires Open(lens, 9) == 8 && Open(lens, 10) == 3 && Open(lens, 11) == 1 && Open(lens, 12) == 1
    requires Open(lens, 13) == 1 && Open(lens, 14) == 1
    ensures Spread(lens, 9, MAXBITS) == 80
  {
    hide Open;
    assert Spread(lens, 9, 10) == 16;
    assert Spread(lens, 9, 11) == 20;
    assert Spread(lens, 9, 12) == 24;
    assert Spread(lens, 9, 13) == 32;
    assert Spread(lens, 9, 14) == 48;
  }
}
