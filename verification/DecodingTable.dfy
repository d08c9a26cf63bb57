/** What the two-level decoding tables of a canonical Huffman code mean (zlib's inftrees.c). */
module DecodingTable {
  import opened Arithmetic
  import opened HuffmanCode

  datatype CodeType = Codes | Lens | Dists

  /** A decoding table entry: an operation, the code bits it uses, and a value or a table offset. */
  datatype Code = Code(op: nat, bits: nat, val: nat)

  const ENOUGH_LENS: nat := 1332
  const ENOUGH_DISTS: nat := 592
  const INVALID := Code(64, 1, 0)

  const LBASE: seq<nat> := [
    3, 4, 5, 6, 7, 8, 9, 10, 11, 13, 15, 17, 19, 23, 27, 31,
    35, 43, 51, 59, 67, 83, 99, 115, 131, 163, 195, 227, 258, 0, 0]
  const LEXT: seq<nat> := [
    16, 16, 16, 16, 16, 16, 16, 16, 17, 17, 17, 17, 18, 18, 18, 18,
    19, 19, 19, 19, 20, 20, 20, 20, 21, 21, 21, 21, 16, 72, 78]
  const DBASE: seq<nat> := [
    1, 2, 3, 4, 5, 7, 9, 13, 17, 25, 33, 49, 65, 97, 129, 193,
    257, 385, 513, 769, 1025, 1537, 2049, 3073, 4097, 6145,
    8193, 12289, 16385, 24577, 0, 0]
  const DEXT: seq<nat> := [
    16, 16, 16, 16, 17, 17, 18, 18, 19, 19, 20, 20, 21, 21, 22, 22,
    23, 23, 24, 24, 25, 25, 26, 26, 27, 27,
    28, 28, 29, 29, 64, 64]

  /** How many symbols each kind of code may have. */
  function MaxSymbols(t: CodeType): nat {
    match t
    case Codes => 19
    case Lens => 257 + |LBASE|
    case Dists => |DBASE|
  }

  /** The table entry for a symbol whose code has `bits` bits left at this level. */
  function EntryOf(t: CodeType, sym: nat, bits: nat): Code
    requires sym < MaxSymbols(t)
  {
    match t
    case Codes => Code(0, bits, sym)
    case Lens =>
      if sym < 256 then Code(0, bits, sym)
      else if sym == 256 then Code(32 + 64, bits, 0)
      else Code(LEXT[sym - 257], bits, LBASE[sym - 257])
    case Dists => Code(DEXT[sym], bits, DBASE[sym])
  }

  // ---------- what a table means: the lookup that the decoder performs ----------

  datatype Found = Entry(op: nat, val: nat, length: nat) | OffTable

  /** Whether an entry of the root table points to a sub-table. */
  predicate IsLink(t: CodeType, e: Code) {
    e.op < 16 && (t.Dists? || e.op != 0)
  }

  /** The decoder's lookup with the bits of `w`, lowest bit first. */
  function Lookup(t: CodeType, tab: seq<Code>, root: nat, w: nat): Found {
    var i := w % Pow2(root);
    if i >= |tab| then OffTable
    else
      var e := tab[i];
      if !IsLink(t, e) then Entry(e.op, e.val, e.bits)
      else
        var k := e.val + (w % Pow2(e.bits + e.op)) / Pow2(e.bits);
        if k >= |tab| then OffTable
        else Entry(tab[k].op, tab[k].val, e.bits + tab[k].bits)
  }

  /** The bits of `w` start with the code of symbol `s`. */
  predicate StartsWith(lens: seq<nat>, s: nat, w: nat) {
    Coded(lens, s) && w % Pow2(lens[s]) == SentCode(lens, s)
  }

  /**
    The table decodes the code: bits that start with a symbol's code give that symbol and
    the length of its code, and all other bits give the invalid marker.
   */
  ghost predicate Decodes(t: CodeType, lens: seq<nat>, tab: seq<Code>, root: nat) {
    && |lens| <= MaxSymbols(t)
    && (forall s: nat, w: nat :: StartsWith(lens, s, w) ==>
          Lookup(t, tab, root, w) == Entry(EntryOf(t, s, 0).op, EntryOf(t, s, 0).val, lens[s]))
    && (forall w: nat ::
          || (exists s: nat :: StartsWith(lens, s, w))
          || Lookup(t, tab, root, w) == Entry(INVALID.op, INVALID.val, INVALID.bits))
  }

  /** Links come only where codes are longer than the root's index, and they use all of its bits. */
  ghost predicate Rooted(t: CodeType, lens: seq<nat>, tab: seq<Code>, root: nat) {
    && Pow2(root) <= |tab|
    && forall i: nat :: i < Pow2(root) && IsLink(t, tab[i]) ==> tab[i].bits == root < Longest(lens)
  }

  // ---------- the shape of the table ----------

  function LongestUpTo(lens: seq<nat>, l: nat): (m: nat)
    ensures m <= l
    ensures m > 0 ==> Total(lens, m) > 0
    ensures forall k :: m < k <= l ==> Total(lens, k) == 0
  {
    if l == 0 then 0 else if Total(lens, l) != 0 then l else LongestUpTo(lens, l - 1)
  }

  function Longest(lens: seq<nat>): nat {
    LongestUpTo(lens, MAXBITS)
  }

  /** The first length from `l` on that is used (MAXBITS when there is none before). */
  function UsedFrom(lens: seq<nat>, l: nat): (m: nat)
    requires 1 <= l <= MAXBITS
    ensures l <= m <= MAXBITS
    ensures m < MAXBITS ==> Total(lens, m) > 0
    ensures forall k :: l <= k < m ==> Total(lens, k) == 0
    decreases MAXBITS - l
  {
    if l == MAXBITS || Total(lens, l) != 0 then l else UsedFrom(lens, l + 1)
  }

  /** The requested root size, forced to be within the code lengths. */
  function RootBits(lens: seq<nat>, request: nat): (root: nat)
    ensures 1 <= root <= MAXBITS
  {
    if Longest(lens) == 0 then 1 else Max(Min(request, Longest(lens)), UsedFrom(lens, 1))
  }

  /** The vectors for which a table is built. */
  predicate Accepted(t: CodeType, lens: seq<nat>) {
    || Longest(lens) == 0
    || Kraft(lens) == Pow2(MAXBITS)
    || (Kraft(lens) < Pow2(MAXBITS) && t != Codes && Longest(lens) == 1)
  }

  /** The longest code over `root` bits among the first `n` symbols that has the leading bits `q`. */
  function Deepest(lens: seq<nat>, root: nat, q: nat, n: nat): nat
    requires root <= MAXBITS && n <= |lens|
  {
    if n == 0 then 0
    else
      var d := Deepest(lens, root, q, n - 1);
      if Coded(lens, n - 1) && lens[n - 1] > root && Start(lens, n - 1) / Unit(root) == q
      then Max(d, lens[n - 1]) else d
  }

  /** The entries needed by the sub-table for leading bits `q`. */
  function SubSize(lens: seq<nat>, root: nat, q: nat): nat
    requires root <= MAXBITS
  {
    var d := Deepest(lens, root, q, |lens|);
    if d > root then Pow2(d - root) else 0
  }

  function SizeUpTo(lens: seq<nat>, root: nat, q: nat): nat
    requires root <= MAXBITS
  {
    if q == 0 then Pow2(root) else SizeUpTo(lens, root, q - 1) + SubSize(lens, root, q - 1)
  }

  /** The entries of the whole table: the root, and a sub-table as deep as needed per long prefix. */
  function TableSize(lens: seq<nat>, root: nat): nat
    requires root <= MAXBITS
  {
    SizeUpTo(lens, root, Pow2(root))
  }

  /** Too large for the space that the decoder sets aside. */
  predicate TooLarge(t: CodeType, size: nat) {
    (t == Lens && size > ENOUGH_LENS) || (t == Dists && size > ENOUGH_DISTS)
  }

  // ---------- invariants of the filling loop ----------

  /** Root entry `i` belongs to a symbol with a short code. */
  ghost predicate Direct(t: CodeType, lens: seq<nat>, root: nat, tab: seq<Code>, i: nat)
    requires |lens| <= MaxSymbols(t)
  {
    && i < |tab|
    && exists s: nat :: Covers(lens, s, Rev15(i)) && lens[s] <= root && tab[i] == EntryOf(t, s, lens[s])
  }

  /** Entry `j` of the sub-table at `off` with `c` index bits belongs to a symbol with a long code. */
  ghost predicate Deep(t: CodeType, lens: seq<nat>, root: nat, tab: seq<Code>, i: nat, c: nat, off: nat, j: nat)
    requires |lens| <= MaxSymbols(t)
  {
    && off + j < |tab|
    && exists s: nat ::
         && Covers(lens, s, Rev15(Joined(root, i, j)))
         && root < lens[s] <= root + c
         && tab[off + j] == EntryOf(t, s, lens[s] - root)
  }

  /** The bits that select root entry `i` and then sub-table entry `j`. */
  function Joined(root: nat, i: nat, j: nat): nat {
    MulPositive(j, Pow2(root));
    j * Pow2(root) + i
  }

  /** Root entry `i` points to the sub-table at `off`, filled for the codes before `pos`. */
  ghost predicate Linked(t: CodeType, lens: seq<nat>, root: nat, tab: seq<Code>, i: nat, c: nat, off: nat, pos: nat)
    requires |lens| <= MaxSymbols(t)
  {
    && i < |tab| && tab[i] == Code(c, root, off)
    && 1 <= c && root + c <= MAXBITS
    && Pow2(root) <= off && off + Pow2(c) <= |tab|
    && forall j: nat :: j < Pow2(c) && Rev15(Joined(root, i, j)) < pos ==> Deep(t, lens, root, tab, i, c, off, j)
  }

  /** Root entry `i` is complete, with its sub-table, if any, ending at `lim` or before. */
  ghost predicate Complete(t: CodeType, lens: seq<nat>, root: nat, tab: seq<Code>, i: nat, lim: nat)
    requires |lens| <= MaxSymbols(t)
  {
    || Direct(t, lens, root, tab, i)
    || exists c: nat, off: nat :: Linked(t, lens, root, tab, i, c, off, Pow2(MAXBITS)) && off + Pow2(c) <= lim
  }

  /** The root entries of the codes before `pos` are complete. */
  ghost predicate FilledTo(t: CodeType, lens: seq<nat>, root: nat, tab: seq<Code>, pos: nat, lim: nat)
    requires |lens| <= MaxSymbols(t)
  {
    && Pow2(root) <= lim <= |tab|
    && forall i: nat :: i < Pow2(root) && Rev15(i) < pos ==> Complete(t, lens, root, tab, i, lim)
  }

  /** Every root entry filled so far is direct. */
  ghost predicate RootOnly(t: CodeType, lens: seq<nat>, root: nat, tab: seq<Code>, pos: nat)
    requires |lens| <= MaxSymbols(t)
  {
    && Pow2(root) <= |tab|
    && forall i: nat :: i < Pow2(root) && Rev15(i) < pos ==> Direct(t, lens, root, tab, i)
  }

  lemma RootOnlyIsFilled(t: CodeType, lens: seq<nat>, root: nat, tab: seq<Code>, pos: nat)
    requires |lens| <= MaxSymbols(t)
    requires RootOnly(t, lens, root, tab, pos)
    ensures FilledTo(t, lens, root, tab, pos, Pow2(root))
  {
  }

  /** Entering a short code fills the root entries of its interval and no others. */
  lemma RootStep(t: CodeType, lens: seq<nat>, root: nat, tab: seq<Code>, tab': seq<Code>, s: nat)
    requires |lens| <= MaxSymbols(t) && root <= MAXBITS && |tab| == |tab'|
    requires Coded(lens, s) && lens[s] <= root && Kraft(lens) <= Pow2(MAXBITS)
    requires RootOnly(t, lens, root, tab, Start(lens, s))
    requires forall i: nat :: i < Pow2(root) ==>
      tab'[i] == if i % Pow2(lens[s]) == SentCode(lens, s) then EntryOf(t, s, lens[s]) else tab[i]
    ensures RootOnly(t, lens, root, tab', Start(lens, s) + Unit(lens[s]))
  {
    var pos := Start(lens, s);
    forall i: nat | i < Pow2(root) && Rev15(i) < pos + Unit(lens[s])
      ensures Direct(t, lens, root, tab', i)
    {
      SentCodeCovers(lens, s, i);
      if Rev15(i) < pos {
        assert Direct(t, lens, root, tab, i);
      } else {
        assert Covers(lens, s, Rev15(i));
      }
    }
  }

  lemma LinkedIs(t: CodeType, lens: seq<nat>, root: nat, tab: seq<Code>, tab': seq<Code>, i: nat, c: nat, off: nat,
      pos: nat, pos': nat)
    requires |lens| <= MaxSymbols(t) && Linked(t, lens, root, tab, i, c, off, pos) && |tab| == |tab'|
              && tab'[i] == tab[i]
    requires forall j: nat :: j < Pow2(c) && Rev15(Joined(root, i, j)) < pos' ==>
              Deep(t, lens, root, tab', i, c, off, j)
    ensures Linked(t, lens, root, tab', i, c, off, pos')
  {
    hide Pow2, Deep, Rev15, Joined;
  }

  /** One entry of the sub-table: of the code that is entered, or of an earlier one. */
  lemma SubTableEntry(t: CodeType, lens: seq<nat>, root: nat, tab: seq<Code>, tab': seq<Code>,
                      low: nat, c: nat, off: nat, s: nat, j: nat)
    requires |lens| <= MaxSymbols(t) && root <= MAXBITS && |tab| == |tab'|
    requires Coded(lens, s) && root < lens[s] <= root + c && Kraft(lens) <= Pow2(MAXBITS)
    requires Linked(t, lens, root, tab, low, c, off, Start(lens, s))
    requires low < Pow2(root) && low == SentCode(lens, s) % Pow2(root)
    requires j < Pow2(c) && Rev15(Joined(root, low, j)) < Start(lens, s) + Unit(lens[s]) && off + j < |tab|
    requires tab'[off + j] == if j % Pow2(lens[s] - root) == SentCode(lens, s) / Pow2(root)
                              then EntryOf(t, s, lens[s] - root) else tab[off + j]
    ensures Deep(t, lens, root, tab', low, c, off, j)
  {
    hide Pow2, EntryOf, Rev15, Joined, Kraft, Codeword, Reverse;
    var w := Joined(root, low, j);
    SentCodeCovers(lens, s, w);
    JoinedMatches(root, lens[s] - root, low, j, SentCode(lens, s));
    if Rev15(w) < Start(lens, s) {
      assert Deep(t, lens, root, tab, low, c, off, j);
    } else {
      assert Covers(lens, s, Rev15(w));
    }
  }

  /** Entering a long code fills the sub-table entries of its interval and no others. */
  lemma SubTableStep(t: CodeType, lens: seq<nat>, root: nat, tab: seq<Code>, tab': seq<Code>,
                     low: nat, c: nat, off: nat, s: nat)
    requires |lens| <= MaxSymbols(t) && root <= MAXBITS && |tab| == |tab'|
    requires Coded(lens, s) && root < lens[s] <= root + c && Kraft(lens) <= Pow2(MAXBITS)
    requires Linked(t, lens, root, tab, low, c, off, Start(lens, s))
    requires low < Pow2(root) && low == SentCode(lens, s) % Pow2(root)
    requires forall i :: 0 <= i < off ==> tab'[i] == tab[i]
    requires forall k :: off <= k < off + Pow2(c) ==>
      tab'[k] == if (k - off) % Pow2(lens[s] - root) == SentCode(lens, s) / Pow2(root)
                 then EntryOf(t, s, lens[s] - root) else tab[k]
    ensures Linked(t, lens, root, tab', low, c, off, Start(lens, s) + Unit(lens[s]))
  {
    hide Linked, Pow2, EntryOf, Rev15, SentCode, Joined, Deep, Kraft;
    var pos := Start(lens, s);
    LinkBounds(t, lens, root, tab, low, c, off, pos);
    forall j: nat | j < Pow2(c) && Rev15(Joined(root, low, j)) < pos + Unit(lens[s])
      ensures Deep(t, lens, root, tab', low, c, off, j)
    {
      SubTableEntry(t, lens, root, tab, tab', low, c, off, s, j);
    }
    LinkedIs(t, lens, root, tab, tab', low, c, off, pos, pos + Unit(lens[s]));
  }

  lemma JoinedMatches(a: nat, b: nat, i: nat, j: nat, code: nat)
    requires i < Pow2(a) && code < Pow2(a + b) && i == code % Pow2(a)
    ensures Joined(a, i, j) % Pow2(a + b) == code <==> j % Pow2(b) == code / Pow2(a)
  {
    var w := Joined(a, i, j);
    DivModUnique(w, Pow2(a), j, i);
    SplitBits(w, a, b);
    DivMod(code, Pow2(a));
    SplitBits(code, a, b);
    DivModUnique(code, Pow2(a + b), 0, code);
    SameDigits(Pow2(a), j % Pow2(b), code / Pow2(a), i);
  }

  lemma SameDigits(n: nat, x: nat, y: nat, r: nat)
    requires n > 0
    ensures x * n + r == y * n + r <==> x == y
  {
    if x < y {
      MulMonotone(n, x + 1, y);
    } else if y < x {
      MulMonotone(n, y + 1, x);
    }
  }

  // ---------- prefixes of root size ----------

  /** The bits of a joined index lead with the bits of its root index. */
  lemma JoinedLeads(root: nat, i: nat, j: nat)
    requires root <= MAXBITS && i < Pow2(root)
    ensures Joined(root, i, j) % Pow2(root) == i
    ensures Rev15(i) <= Rev15(Joined(root, i, j)) < Rev15(i) + Unit(root)
  {
    var w := Joined(root, i, j);
    DivModUnique(w, Pow2(root), j, i);
    LeadingBits(root, w);
    DivMod(Rev15(w), Unit(root));
  }

  /** Different root entries lie at least one root interval apart. */
  lemma RootIntervals(root: nat, i: nat, k: nat)
    requires root <= MAXBITS && i < Pow2(root) && k < Pow2(root) && i != k
    ensures Rev15(i) + Unit(root) <= Rev15(k) || Rev15(k) + Unit(root) <= Rev15(i)
  {
    ShortWord(root, i);
    ShortWord(root, k);
    ReverseInvolution(root, i);
    ReverseInvolution(root, k);
    SeparateMultiples(Reverse(root, i), Reverse(root, k), Unit(root));
  }

  lemma SeparateMultiples(a: int, b: int, u: nat)
    requires a != b
    ensures a * u + u <= b * u || b * u + u <= a * u
  {
    if a < b {
      MulMonotone(u, a + 1, b);
    } else {
      MulMonotone(u, b + 1, a);
    }
  }

  // ---------- moving from one sub-table to the next ----------

  /** Completed entries do not depend on what lies behind them or on entry `x` of a later code. */
  lemma FilledFrame(t: CodeType, lens: seq<nat>, root: nat, tab: seq<Code>, tab': seq<Code>, pos: nat, lim: nat, x: nat)
    requires |lens| <= MaxSymbols(t) && |tab'| >= lim && |tab'| <= |tab|
    requires FilledTo(t, lens, root, tab, pos, lim)
    requires (x < Pow2(root) && Rev15(x) >= pos) || x >= lim
    requires forall i :: 0 <= i < lim && i != x ==> tab'[i] == tab[i]
    ensures FilledTo(t, lens, root, tab', pos, lim)
  {
    hide Pow2, Direct, Linked, Rev15;
    forall i: nat | i < Pow2(root) && Rev15(i) < pos
      ensures Complete(t, lens, root, tab', i, lim)
    {
      assert Complete(t, lens, root, tab, i, lim);
      if Direct(t, lens, root, tab, i) {
        DirectFrame(t, lens, root, tab, tab', i);
      } else {
        var c: nat, off: nat :|
          Linked(t, lens, root, tab, i, c, off, Pow2(MAXBITS)) && off + Pow2(c) <= lim;
        LinkBounds(t, lens, root, tab, i, c, off, Pow2(MAXBITS));
        LinkedFrame(t, lens, root, tab, tab', i, c, off, Pow2(MAXBITS));
      }
    }
  }

  lemma DirectFrame(t: CodeType, lens: seq<nat>, root: nat, tab: seq<Code>, tab': seq<Code>, i: nat)
    requires |lens| <= MaxSymbols(t) && Direct(t, lens, root, tab, i) && i < |tab'| && tab'[i] == tab[i]
    ensures Direct(t, lens, root, tab', i)
  {
    hide Rev15, EntryOf, Covers;
  }

  lemma LinkBounds(t: CodeType, lens: seq<nat>, root: nat, tab: seq<Code>, i: nat, c: nat, off: nat, pos: nat)
    requires |lens| <= MaxSymbols(t) && Linked(t, lens, root, tab, i, c, off, pos)
    ensures i < |tab| && Pow2(root) <= off && off + Pow2(c) <= |tab|
  {
    hide Pow2, Deep, Rev15;
  }

  lemma LinkedFrame(t: CodeType, lens: seq<nat>, root: nat, tab: seq<Code>, tab': seq<Code>,
                    i: nat, c: nat, off: nat, pos: nat)
    requires |lens| <= MaxSymbols(t)
    requires Linked(t, lens, root, tab, i, c, off, pos)
    requires off + Pow2(c) <= |tab'| && i < |tab'| && tab'[i] == tab[i]
    requires forall k :: off <= k < off + Pow2(c) ==> tab'[k] == tab[k]
    ensures Linked(t, lens, root, tab', i, c, off, pos)
  {
    forall j: nat | j < Pow2(c) && Rev15(Joined(root, i, j)) < pos
      ensures Deep(t, lens, root, tab', i, c, off, j)
    {
      assert Deep(t, lens, root, tab, i, c, off, j);
      assert tab'[off + j] == tab[off + j];
    }
  }

  /** Writing the link for the next long prefix starts an empty sub-table behind the others. */
  lemma OpenSubTable(t: CodeType, lens: seq<nat>, root: nat, tab: seq<Code>, pos: nat, lim: nat, low: nat, c: nat)
    requires |lens| <= MaxSymbols(t)
    requires FilledTo(t, lens, root, tab, pos, lim)
    requires low < Pow2(root) && Rev15(low) == pos
    requires 1 <= c && root + c <= MAXBITS && lim + Pow2(c) <= |tab|
    ensures
      var tab' := tab[low := Code(c, root, lim)];
      && FilledTo(t, lens, root, tab', pos, lim)
      && Linked(t, lens, root, tab', low, c, lim, pos)
  {
    var tab' := tab[low := Code(c, root, lim)];
    FilledFrame(t, lens, root, tab, tab', pos, lim, low);
    forall j: nat | j < Pow2(c)
      ensures Rev15(Joined(root, low, j)) >= pos
    {
      JoinedLeads(root, low, j);
    }
  }

  /** A sub-table filled for its whole prefix is complete. */
  lemma CloseSubTable(t: CodeType, lens: seq<nat>, root: nat, tab: seq<Code>, low: nat, c: nat, off: nat, pos: nat)
    requires |lens| <= MaxSymbols(t) && root <= MAXBITS && low < Pow2(root)
    requires FilledTo(t, lens, root, tab, Rev15(low), off)
    requires Linked(t, lens, root, tab, low, c, off, pos)
    requires Rev15(low) + Unit(root) == pos
    ensures FilledTo(t, lens, root, tab, pos, off + Pow2(c))
  {
    forall j: nat | j < Pow2(c)
      ensures Deep(t, lens, root, tab, low, c, off, j)
    {
      JoinedLeads(root, low, j);
    }
    forall i: nat | i < Pow2(root) && Rev15(i) < pos
      ensures Complete(t, lens, root, tab, i, off + Pow2(c))
    {
      if i == low {
        assert Linked(t, lens, root, tab, i, c, off, Pow2(MAXBITS));
      } else {
        RootIntervals(root, i, low);
        assert Complete(t, lens, root, tab, i, off);
      }
    }
  }

  // ---------- a finished table decodes ----------

  /** An entry for a symbol is no link, and only its length depends on the level. */
  lemma EntryShape(t: CodeType, sym: nat, bits: nat)
    requires sym < MaxSymbols(t)
    ensures
      var e := EntryOf(t, sym, bits);
      && e == Code(EntryOf(t, sym, 0).op, bits, EntryOf(t, sym, 0).val)
      && !IsLink(t, e)
  {
  }

  lemma LowBitsAgree(w: nat, a: nat, b: nat)
    requires a <= b
    ensures (w % Pow2(b)) % Pow2(a) == w % Pow2(a)
  {
    SplitBits(w, a, b - a);
  }

  /** The symbol that covers the index of an entry is the symbol the bits start with. */
  lemma SameSymbol(lens: seq<nat>, b: nat, w: nat, s: nat, s': nat)
    requires Kraft(lens) <= Pow2(MAXBITS)
    requires StartsWith(lens, s, w) && Covers(lens, s', Rev15(w % Pow2(b))) && lens[s'] <= b
    ensures s == s'
  {
    SentCodeCovers(lens, s, w);
    SentCodeCovers(lens, s', w % Pow2(b));
    LowBitsAgree(w, lens[s'], b);
    SentCodeCovers(lens, s', w);
    PrefixFree(lens, s, s', Rev15(w));
  }

  lemma FilledLookup(t: CodeType, lens: seq<nat>, root: nat, tab: seq<Code>, s: nat, w: nat)
    requires |lens| <= MaxSymbols(t) && root <= MAXBITS
    requires FilledTo(t, lens, root, tab, Kraft(lens), |tab|)
    requires Kraft(lens) <= Pow2(MAXBITS) && StartsWith(lens, s, w)
    ensures Lookup(t, tab, root, w) == Entry(EntryOf(t, s, 0).op, EntryOf(t, s, 0).val, lens[s])
  {
    hide EntryOf;
    var i := w % Pow2(root);
    assert Complete(t, lens, root, tab, i, |tab|) by {
      RootBefore(lens, root, s, w);
    }
    if Direct(t, lens, root, tab, i) {
      var s': nat :| Covers(lens, s', Rev15(i)) && lens[s'] <= root && tab[i] == EntryOf(t, s', lens[s']);
      SameSymbol(lens, root, w, s, s');
      EntryShape(t, s, lens[s]);
    } else {
      var c: nat, off: nat :| Linked(t, lens, root, tab, i, c, off, Pow2(MAXBITS));
      LinkedLookup(t, lens, root, tab, s, w, c, off);
    }
  }

  lemma RootBefore(lens: seq<nat>, root: nat, s: nat, w: nat)
    requires root <= MAXBITS && Kraft(lens) <= Pow2(MAXBITS) && StartsWith(lens, s, w)
    ensures Rev15(w % Pow2(root)) < Kraft(lens)
  {
    SentCodeCovers(lens, s, w);
    IntervalEnd(lens, s);
    LeadingBits(root, w);
    DivMod(Rev15(w), Unit(root));
  }

  lemma LinkedLookup(t: CodeType, lens: seq<nat>, root: nat, tab: seq<Code>, s: nat, w: nat, c: nat, off: nat)
    requires |lens| <= MaxSymbols(t) && root <= MAXBITS
    requires Linked(t, lens, root, tab, w % Pow2(root), c, off, Pow2(MAXBITS))
    requires Kraft(lens) <= Pow2(MAXBITS) && StartsWith(lens, s, w)
    ensures Lookup(t, tab, root, w) == Entry(EntryOf(t, s, 0).op, EntryOf(t, s, 0).val, lens[s])
  {
    hide EntryOf, Lookup, Pow2, Linked, SentCode, Joined, Kraft, IsLink, Deep, Rev15, Reverse, Unit, Covers;
    LinkShape(t, lens, root, tab, w % Pow2(root), c, off);
    DivMod(w, Pow2(root));
    DivMod(w / Pow2(root), Pow2(c));
    var i: nat, j: nat := w % Pow2(root), (w / Pow2(root)) % Pow2(c);
    SplitJoined(root, c, w, i, j);
    assert off + j < |tab| && lens[s] > root && tab[off + j] == EntryOf(t, s, lens[s] - root) by {
      DeepEntry(t, lens, root, tab, s, w, i, c, off, j);
    }
    EntryShape(t, s, lens[s] - root);
    FollowLink(t, tab, root, w, i, c, off, j);
  }

  lemma FollowLink(t: CodeType, tab: seq<Code>, root: nat, w: nat, i: nat, c: nat, off: nat, j: nat)
    requires i == w % Pow2(root) && i < |tab| && tab[i] == Code(c, root, off) && IsLink(t, tab[i])
    requires j == (w % Pow2(root + c)) / Pow2(root) && off + j < |tab|
    ensures Lookup(t, tab, root, w) == Entry(tab[off + j].op, tab[off + j].val, root + tab[off + j].bits)
  {
    hide Pow2;
  }

  lemma DeepThere(t: CodeType, lens: seq<nat>, root: nat, tab: seq<Code>, i: nat, c: nat, off: nat, j: nat)
    requires |lens| <= MaxSymbols(t)
    requires Linked(t, lens, root, tab, i, c, off, Pow2(MAXBITS)) && j < Pow2(c)
    ensures Deep(t, lens, root, tab, i, c, off, j)
  {
    hide Pow2, Joined, Deep;
  }

  lemma DeepEntry(t: CodeType, lens: seq<nat>, root: nat, tab: seq<Code>, s: nat, w: nat,
                  i: nat, c: nat, off: nat, j: nat)
    requires |lens| <= MaxSymbols(t)
    requires Linked(t, lens, root, tab, i, c, off, Pow2(MAXBITS)) && j < Pow2(c)
    requires Joined(root, i, j) == w % Pow2(root + c)
    requires Kraft(lens) <= Pow2(MAXBITS) && StartsWith(lens, s, w)
    ensures lens[s] > root && tab[off + j] == EntryOf(t, s, lens[s] - root)
  {
    hide EntryOf, Pow2, Joined, Kraft, StartsWith, Reverse;
    DeepThere(t, lens, root, tab, i, c, off, j);
    var s': nat :|
      && Covers(lens, s', Rev15(Joined(root, i, j)))
      && root < lens[s'] <= root + c
      && tab[off + j] == EntryOf(t, s', lens[s'] - root);
    SameSymbol(lens, root + c, w, s, s');
  }

  /** The index bits of the root and of the sub-table, put together again. */
  lemma SplitJoined(root: nat, c: nat, w: nat, i: nat, j: nat)
    requires i == w % Pow2(root) && j == (w / Pow2(root)) % Pow2(c)
    ensures j < Pow2(c) && j == (w % Pow2(root + c)) / Pow2(root) && Joined(root, i, j) == w % Pow2(root + c)
  {
    hide Pow2;
    SplitBits(w, root, c);
  }

  lemma LinkShape(t: CodeType, lens: seq<nat>, root: nat, tab: seq<Code>, i: nat, c: nat, off: nat)
    requires |lens| <= MaxSymbols(t) && Linked(t, lens, root, tab, i, c, off, Pow2(MAXBITS))
    ensures i < |tab| && tab[i] == Code(c, root, off) && IsLink(t, tab[i]) && 1 <= c && root + c <= MAXBITS
              && off + Pow2(c) <= |tab|
  {
    hide Pow2;
  }

  /** With all codes entered, what is left to check are the bits that start with no code. */
  lemma FilledDecodes(t: CodeType, lens: seq<nat>, root: nat, tab: seq<Code>)
    requires |lens| <= MaxSymbols(t) && root <= MAXBITS
    requires FilledTo(t, lens, root, tab, Kraft(lens), |tab|)
    requires Kraft(lens) <= Pow2(MAXBITS)
    requires forall w: nat :: Rev15(w) >= Kraft(lens) ==>
      Lookup(t, tab, root, w) == Entry(INVALID.op, INVALID.val, INVALID.bits)
    ensures Decodes(t, lens, tab, root)
  {
    hide EntryOf, Lookup;
    forall s: nat, w: nat | StartsWith(lens, s, w)
      ensures Lookup(t, tab, root, w) == Entry(EntryOf(t, s, 0).op, EntryOf(t, s, 0).val, lens[s])
    {
      FilledLookup(t, lens, root, tab, s, w);
    }
    forall w: nat
      ensures (exists s: nat :: StartsWith(lens, s, w))
           || Lookup(t, tab, root, w) == Entry(INVALID.op, INVALID.val, INVALID.bits)
    {
      if Rev15(w) < Kraft(lens) {
        var s := SomeSymbol(lens, MAXBITS + 1, Rev15(w));
        SentCodeCovers(lens, s, w);
        assert StartsWith(lens, s, w);
      }
    }
  }

  /** The incomplete code that is accepted: one symbol with a one-bit code. */
  lemma SingleCodeDecodes(t: CodeType, lens: seq<nat>, tab: seq<Code>)
    requires |lens| <= MaxSymbols(t)
    requires Kraft(lens) == Pow2(MAXBITS - 1)
    requires RootOnly(t, lens, 1, tab, Kraft(lens)) && |tab| == 2 && tab[1] == INVALID
    ensures Decodes(t, lens, tab, 1)
  {
    hide EntryOf;
    assert Pow2(1) == 2 by { assert Pow2(0) == 1; }
    RootOnlyIsFilled(t, lens, 1, tab, Kraft(lens));
    forall w: nat | Rev15(w) >= Kraft(lens)
      ensures Lookup(t, tab, 1, w) == Entry(INVALID.op, INVALID.val, INVALID.bits)
    {
      assert w % 2 == 1;
    }
    FilledDecodes(t, lens, 1, tab);
  }

  /** With no symbols every lookup gives the invalid marker. */
  lemma NoCodeDecodes(t: CodeType, lens: seq<nat>, tab: seq<Code>)
    requires |lens| <= MaxSymbols(t) && ValidLengths(lens) && Longest(lens) == 0
    requires tab == [INVALID, INVALID]
    ensures Decodes(t, lens, tab, 1)
  {
    hide EntryOf;
    assert Pow2(1) == 2 by { assert Pow2(0) == 1; }
    forall s: nat | s < |lens|
      ensures lens[s] == 0
    {
      var n := Total(lens, lens[s]);
      CountStrict(lens, s, |lens|);
    }
  }

  // ---------- the size of the table ----------

  lemma {:induction false} DeepestIs(lens: seq<nat>, root: nat, q: nat, n: nat, s: nat)
    requires root <= MAXBITS && s < n <= |lens|
    requires Coded(lens, s) && lens[s] > root && Start(lens, s) / Unit(root) == q
    requires forall k: nat :: Coded(lens, k) && lens[k] > lens[s] ==> Start(lens, k) / Unit(root) != q
    ensures Deepest(lens, root, q, n) == lens[s]
  {
    if s < n - 1 {
      DeepestIs(lens, root, q, n - 1, s);
    } else {
      DeepestAtMost(lens, root, q, n - 1, lens[s]);
    }
  }

  lemma {:induction false} DeepestAtMost(lens: seq<nat>, root: nat, q: nat, n: nat, d: nat)
    requires root <= MAXBITS && n <= |lens|
    requires forall k: nat :: Coded(lens, k) && lens[k] > Max(d, root) ==> Start(lens, k) / Unit(root) != q
    ensures Deepest(lens, root, q, n) <= Max(d, root)
  {
    if n > 0 {
      DeepestAtMost(lens, root, q, n - 1, d);
    }
  }

  lemma {:induction false} SizeMonotone(lens: seq<nat>, root: nat, m: nat, n: nat)
    requires root <= MAXBITS && m <= n
    ensures SizeUpTo(lens, root, m) <= SizeUpTo(lens, root, n)
  {
    if m < n {
      SizeMonotone(lens, root, m, n - 1);
    }
  }

  /** The prefixes before the first long code need no sub-table. */
  lemma {:induction false} NoSubTables(lens: seq<nat>, root: nat, q: nat)
    requires root <= MAXBITS
    requires forall k: nat :: Coded(lens, k) && lens[k] > root ==> Start(lens, k) >= q * Unit(root)
    ensures SizeUpTo(lens, root, q) == Pow2(root)
  {
    if q > 0 {
      MulMonotone(Unit(root), q - 1, q);
      NoSubTables(lens, root, q - 1);
      forall k: nat | Coded(lens, k) && lens[k] > root
        ensures Start(lens, k) / Unit(root) != q - 1
      {
        DivRange(Start(lens, k), Unit(root), q);
      }
      DeepestAtMost(lens, root, q - 1, |lens|, root);
    }
  }
}
