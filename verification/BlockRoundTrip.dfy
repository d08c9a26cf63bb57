/**
  Compressing and decompressing meet: the bits of a block, in each of its three forms, take the decoder
  from one block header to the next, with the block's bytes put out (zlib's trees.c against inflate.c).
 */
module BlockRoundTrip {
  import opened Arithmetic
  import opened Bits
  import opened BlockHeader
  import opened BlockSymbols
  import opened DecodingTable
  import opened HuffmanCode
  import opened Inflation
  import opened Lz77
  import opened RunLengths
  import opened SymbolRoundTrip
  import opened TreeBuild
  import CanonicalTrees
  import FlushBlock

  // ---------- runs ----------

  /** The decoder comes from `c` to `d`. */
  ghost predicate Runs(c: Config, d: Config) {
    c.s.Valid() && exists k: nat :: Steps(c, k) == Some(d)
  }

  lemma RunsStart(c: Config)
    requires c.s.Valid()
    ensures Runs(c, c)
  {
    assert Steps(c, 0) == Some(c);
  }

  lemma RunsValid(c: Config, d: Config)
    requires Runs(c, d)
    ensures d.s.Valid()
  {
    hide Steps;
    var k: nat :| Steps(c, k) == Some(d);
  }

  lemma RunsStep(c: Config, d: Config)
    requires Runs(c, d) && d.s.Valid() && Step(d.s, d.p).Next?
    ensures Step(d.s, d.p).used <= |d.p| && Runs(c, Config(Step(d.s, d.p).state, d.p[Step(d.s, d.p).used..]))
  {
    hide Step;
    var k: nat :| Steps(c, k) == Some(d);
    StepKeeps(d.s, d.p);
    assert Steps(c, k + 1) == Some(Config(Step(d.s, d.p).state, d.p[Step(d.s, d.p).used..]));
  }

  lemma RunsJoin(c: Config, d: Config, e: Config)
    requires Runs(c, d) && Runs(d, e)
    ensures Runs(c, e)
  {
    hide Steps;
    var j: nat :| Steps(c, j) == Some(d);
    var k: nat :| Steps(d, k) == Some(e);
    StepsJoin(c, j, k);
  }

  lemma RunsLeads(c: Config, d: Config)
    requires Leads(c, d)
    ensures Runs(c, d)
  {
    hide Steps, BlockSteps;
    var k: nat :| BlockSteps(c, k) == Some(d);
    assert Steps(c, k) == Some(d);
  }

  // ---------- numbers in the header ----------

  /** A number that was sent comes back, and leaves what follows it. */
  lemma NumberBack(v: nat, n: nat, q: seq<bool>)
    requires v < Pow2(n)
    ensures FromBits((ToBits(v, n) + q)[..n]) == v && (ToBits(v, n) + q)[n..] == q
  {
    FromTo(v, n);
    assert (ToBits(v, n) + q)[..n] == ToBits(v, n);
  }

  /** The three bits of a block header. */
  lemma KindBits(kind: nat, last: nat, q: seq<bool>)
    requires kind <= 2 && last <= 1
    ensures var p := ToBits(2 * kind + last, 3) + q;
            |p| >= 3 && (p[0] <==> last == 1) && FromBits(p[1..3]) == kind && p[3..] == q
  {
    var bits := ToBits(2 * kind + last, 3);
    assert bits == [last == 1] + ToBits(kind, 2);
    assert (bits + q)[1..3] == ToBits(kind, 2);
    FromTo(kind, 2);
  }

  /** A block header takes the decoder to the mode of the block. */
  lemma KindRun(c: Config, s: State, kind: nat, last: nat, q: seq<bool>)
    requires kind <= 2 && last <= 1 && s.Valid() && s.mode.Type? && !s.last
    requires Runs(c, Config(s, ToBits(2 * kind + last, 3) + q))
    ensures Runs(c, Config(State(BlockMode(kind), last == 1, s.out), q))
  {
    hide Runs, ToBits, FromBits, BlockMode;
    KindBits(kind, last, q);
    RunsStep(c, Config(s, ToBits(2 * kind + last, 3) + q));
  }

  // ---------- the header of a dynamic block ----------

  lemma CountsBack(lmax: nat, dmax: nat, maxBl: nat, q: seq<bool>)
    requires 256 <= lmax < L_CODES && dmax < D_CODES && 3 <= maxBl < BL_CODES
    ensures var p := CountBits(lmax, dmax, maxBl) + q;
      && |p| >= 14 && FromBits(p[..5]) == lmax - 256 && FromBits(p[5..10]) == dmax && FromBits(p[10..14]) == maxBl - 3
         && p[14..] == q
  {
    hide ToBits, FromBits, Pow2;
    SmallPowers();
    var a, b, c := ToBits(lmax + 1 - 257, 5), ToBits(dmax, 5), ToBits(maxBl + 1 - 4, 4);
    var p := CountBits(lmax, dmax, maxBl) + q;
    FromTo(lmax - 256, 5);
    FromTo(dmax, 5);
    FromTo(maxBl - 3, 4);
    assert p[..5] == a && p[5..10] == b && p[10..14] == c && p[14..] == q;
  }

  lemma CountsRun(c: Config, s: State, lmax: nat, dmax: nat, maxBl: nat, q: seq<bool>)
    requires 256 <= lmax < L_CODES && dmax < D_CODES && 3 <= maxBl < BL_CODES && s.Valid() && s.mode.Table?
    requires Runs(c, Config(s, CountBits(lmax, dmax, maxBl) + q))
    ensures Runs(c, Config(s.(mode := LenLens(lmax + 1, dmax + 1, maxBl + 1, [])), q))
  {
    hide Runs, CountBits, FromBits;
    CountsBack(lmax, dmax, maxBl, q);
    RunsStep(c, Config(s, CountBits(lmax, dmax, maxBl) + q));
  }

  /** The lengths of the code length codes in the order in which they are sent. */
  function Ordered(len: seq<nat>, n: nat): (r: seq<nat>)
    requires n <= BL_CODES <= |len|
    ensures |r| == n
  {
    if n == 0 then [] else Ordered(len, n - 1) + [len[BL_ORDER[n - 1]]]
  }

  lemma {:induction false} OrderedAt(len: seq<nat>, n: nat, k: nat)
    requires k < n <= BL_CODES <= |len|
    ensures BL_ORDER[k] < |len| && Ordered(len, n)[k] == len[BL_ORDER[k]]
  {
    OrderDistinct();
    if k < n - 1 {
      OrderedAt(len, n - 1, k);
    }
  }

  lemma OneLength(c: Config, s: State, v: nat, q: seq<bool>)
    requires s.Valid() && s.mode.LenLens? && |s.mode.got| < s.mode.ncode && v < 8
              && Runs(c, Config(s, ToBits(v, 3) + q))
    ensures Runs(c, Config(s.(mode := LenLens(s.mode.nlen, s.mode.ndist, s.mode.ncode, s.mode.got + [v])), q))
  {
    hide Runs, ToBits, FromBits;
    SmallPowers();
    NumberBack(v, 3, q);
    LenLensIs(s, ToBits(v, 3) + q);
    RunsStep(c, Config(s, ToBits(v, 3) + q));
  }

  /** Reads the lengths of the code length codes. */
  lemma {:induction false} LengthsRun(c: Config, s: State, nlen: nat, ndist: nat, ncode: nat, len: seq<nat>, n: nat,
      q: seq<bool>)
    requires s.Valid() && s.mode == LenLens(nlen, ndist, ncode, []) && n <= ncode <= BL_CODES <= |len|
    requires forall k :: 0 <= k < BL_CODES ==> len[k] <= 7
    requires Runs(c, Config(s, OrderedLengths(len, n) + q))
    ensures Runs(c, Config(s.(mode := LenLens(nlen, ndist, ncode, Ordered(len, n))), q))
  {
    hide Runs, ToBits, State.Valid;
    if n == 0 {
      assert [] + q == q;
    } else {
      OrderDistinct();
      var v := len[BL_ORDER[n - 1]];
      assert OrderedLengths(len, n) + q == OrderedLengths(len, n - 1) + (ToBits(v, 3) + q);
      LengthsRun(c, s, nlen, ndist, ncode, len, n - 1, ToBits(v, 3) + q);
      var d := s.(mode := LenLens(nlen, ndist, ncode, Ordered(len, n - 1)));
      RunsValid(c, Config(d, ToBits(v, 3) + q));
      OneLength(c, d, v, q);
    }
  }

  /** What was not sent is zero, so the decoder has all lengths. */
  lemma OrderedScatter(len: seq<nat>, n: nat)
    requires n <= BL_CODES <= |len| && forall k :: n <= k < BL_CODES ==> BL_ORDER[k] < |len| && len[BL_ORDER[k]] == 0
    ensures Scatter(Ordered(len, n)) == len[..BL_CODES]
  {
    hide Scatter, Ordered;
    OrderDistinct();
    forall k | 0 <= k < BL_CODES
      ensures BL_ORDER[k] < BL_CODES && len[..BL_CODES][BL_ORDER[k]] == if k < n then Ordered(len, n)[k] else 0
    {
      if k < n {
        OrderedAt(len, n, k);
      }
    }
    ScatterIs(Ordered(len, n), len[..BL_CODES]);
  }

  // ---------- the items ----------

  lemma ExpandGrows(items: seq<Item>, have: seq<nat>, total: nat)
    requires RunLengths.Expand(items, have, total).Lengths?
    ensures |RunLengths.Expand(items, have, total).lens| >= |have| + |items|
    decreases |items|
  {
    if items != [] {
      ExpandGrows(items[1..], ExpandOne(items[0], have, total).lens, total);
    }
  }

  lemma CodesEntry(k: nat)
    requires k < BL_CODES
    ensures EntryOf(Codes, k, 0).val == k && ExtraBits(k) == ExtraBl(k)
  {
  }

  /** One item: its codeword and its extra bits come back. */
  lemma ItemRun(c: Config, s: State, item: Item, t: Tree, q: seq<bool>)
    requires s.Valid() && s.mode.CodeLens? && Agrees(t, s.mode.clens, BL_CODES)
    requires GoodItem(item) && Sendable(item, t.code, t.len) && |s.mode.got| < s.mode.nlen + s.mode.ndist
    requires ExpandOne(item, s.mode.got, s.mode.nlen + s.mode.ndist).Lengths?
    requires Runs(c, Config(s, ItemBits(item, t.code, t.len) + q))
    ensures var got := ExpandOne(item, s.mode.got, s.mode.nlen + s.mode.ndist).lens;
            Runs(c, Config(s.(mode := CodeLens(s.mode.nlen, s.mode.ndist, s.mode.clens, got)), q))
  {
    hide Runs, ToBits, FromBits, Pow2, Agrees, EntryOf, Decode, Begins, CodeValid, ExtraBits, ExtraBl;
    var p := ItemBits(item, t.code, t.len) + q;
    var n := t.len[item.sym];
    assert p == CodeBits(t, item.sym) + (ToBits(item.extra, item.bits) + q);
    CodeBegins(t, s.mode.clens, BL_CODES, item.sym, ToBits(item.extra, item.bits) + q);
    DecodeIs(Codes, s.mode.clens, item.sym, p);
    CodesEntry(item.sym);
    NumberBack(item.extra, item.bits, q);
    assert p[n..n + item.bits] == p[n..][..item.bits] && p[n + item.bits..] == p[n..][item.bits..];
    assert RunLengths.Item(item.sym, item.extra, item.bits) == item;
    RunsStep(c, Config(s, p));
  }

  /** All items: the decoder has the lengths that they expand to. */
  lemma {:induction false} ItemsRun(c: Config, s: State, items: seq<Item>, t: Tree, all: seq<nat>, q: seq<bool>)
    requires s.Valid() && s.mode.CodeLens? && Agrees(t, s.mode.clens, BL_CODES)
    requires GoodItems(items) && AllSendable(items, t.code, t.len) && |all| == s.mode.nlen + s.mode.ndist
    requires RunLengths.Expand(items, s.mode.got, |all|) == Lengths(all)
    requires Runs(c, Config(s, Encode(items, t.code, t.len) + q))
    ensures Runs(c, Config(s.(mode := CodeLens(s.mode.nlen, s.mode.ndist, s.mode.clens, all)), q))
    decreases |items|
  {
    hide Runs, Agrees, State.Valid, GoodItem, ItemBits, ExpandOne, Pow2;
    if items == [] {
      assert [] + q == q;
    } else {
      ExpandGrows(items, s.mode.got, |all|);
      var rest := Encode(items[1..], t.code, t.len) + q;
      assert Encode(items, t.code, t.len) + q == ItemBits(items[0], t.code, t.len) + rest;
      ItemRun(c, s, items[0], t, rest);
      var d := s.(mode := CodeLens(s.mode.nlen, s.mode.ndist, s.mode.clens,
          ExpandOne(items[0], s.mode.got, |all|).lens));
      RunsValid(c, Config(d, rest));
      ItemsRun(c, d, items[1..], t, all, q);
    }
  }

  // ---------- a dynamic block ----------

  /** The trees that the decoder gets from a plan. */
  ghost function SentTrees(p: Plan): Trees
    requires p.Valid()
  {
    Trees(p.LLens(), p.DLens())
  }

  lemma CodesAgree(p: Plan)
    requires p.Valid() && p.Canonical()
    ensures Agrees(p.bt, p.bt.len[..BL_CODES], BL_CODES) && Accepted(Codes, p.bt.len[..BL_CODES])
  {
    hide Kraft, Pow2, SentCode, AllSendable, TableSize;
  }

  /** When the code length code is complete, the items follow. */
  lemma CodesRun(c: Config, s: State, p: Plan, q: seq<bool>)
    requires p.Valid() && p.Canonical() && s.Valid()
    requires s.mode == LenLens(p.lmax + 1, p.dmax + 1, p.maxBl + 1, Ordered(p.bt.len, p.maxBl + 1))
              && Runs(c, Config(s, q))
    ensures Runs(c, Config(s.(mode := CodeLens(p.lmax + 1, p.dmax + 1, p.bt.len[..BL_CODES], [])), q))
  {
    hide Runs, Accepted, Plan.Canonical, AllSendable, Scatter;
    OrderDistinct();
    OrderedScatter(p.bt.len, p.maxBl + 1);
    CodesAgree(p);
    LenLensIs(s, q);
    RunsStep(c, Config(s, q));
    assert q[0..] == q;
  }

  lemma PlanItems(p: Plan)
    requires p.Valid()
    ensures var items := Items(p.LLens()) + Items(p.DLens());
      && GoodItems(items) && AllSendable(items, p.bt.code, p.bt.len)
         && p.TreeBits() == Encode(items, p.bt.code, p.bt.len)
      && RunLengths.Expand(items, [], |p.LLens() + p.DLens()|) == Lengths(p.LLens() + p.DLens())
  {
    hide ItemsFrom, GoodItem, Encode, RunLengths.Expand;
    ItemsAreGood(p.LLens(), 0, -1, 0);
    ItemsAreGood(p.DLens(), 0, -1, 0);
    EncodeAppend(Items(p.LLens()), Items(p.DLens()), p.bt.code, p.bt.len);
    TwoTreesRoundTrip(p.LLens(), p.DLens());
  }

  lemma PlanLens(p: Plan)
    requires p.Valid()
    ensures 256 <= p.lmax < L_CODES && p.dmax < D_CODES && 3 <= p.maxBl < BL_CODES <= |p.bt.len|
    ensures p.lmax < |p.lt.len| && p.dmax < |p.dt.len| && SentTrees(p) == Trees(p.LLens(), p.DLens())
    ensures |p.LLens()| == p.lmax + 1 && |p.DLens()| == p.dmax + 1 && forall k :: 0 <= k < BL_CODES ==> p.bt.len[k] <= 7
    ensures p.HeaderBits() == CountBits(p.lmax, p.dmax, p.maxBl) + OrderedLengths(p.bt.len, p.maxBl + 1) + p.TreeBits()
  {
  }

  /** Both trees are complete codes, so they are accepted. */
  lemma TreesAccepted(p: Plan)
    requires p.Valid() && p.Canonical() && HasCode(p.lt, END_BLOCK)
    ensures p.LLens()[256] != 0 && Accepted(Lens, p.LLens()) && Accepted(Dists, p.DLens())
    ensures SameTrees(p.lt, p.dt, SentTrees(p))
  {
    hide Kraft, Pow2, SentCode, AllSendable;
    assert p.LLens()[256] == p.lt.len[256];
  }

  /** The decoder has all lengths: it builds both trees. */
  lemma TreesRun(c: Config, s: State, p: Plan, clens: seq<nat>, q: seq<bool>)
    requires p.Valid() && p.Canonical() && HasCode(p.lt, END_BLOCK) && s.Valid()
    requires s.mode == CodeLens(p.lmax + 1, p.dmax + 1, clens, p.LLens() + p.DLens()) && Runs(c, Config(s, q))
    ensures Runs(c, Config(s.(mode := Len(SentTrees(p))), q))
  {
    hide Runs, Plan.Canonical, Plan.Valid, SameTrees, HasCode, TreesMode, State.Valid, SentTrees;
    PlanLens(p);
    TreesAccepted(p);
    TreesModeIs(SentTrees(p));
    var got := p.LLens() + p.DLens();
    assert got[..p.lmax + 1] == p.LLens() && got[p.lmax + 1..] == p.DLens();
    TreesIs(s, q);
    RunsStep(c, Config(s, q));
    assert q[0..] == q;
  }

  lemma TreesModeIs(t: Trees)
    requires |t.llens| >= 257 && t.llens[256] != 0 && Accepted(Lens, t.llens) && Accepted(Dists, t.dlens)
    ensures TreesMode(t.llens, t.dlens) == Len(t)
  {
    hide Accepted;
  }

  lemma TreesIs(s: State, p: seq<bool>)
    requires s.Valid() && s.mode.CodeLens? && |s.mode.got| == s.mode.nlen + s.mode.ndist
    ensures s.mode.nlen >= 257
    ensures Step(s, p) == Next(s.(mode := TreesMode(s.mode.got[..s.mode.nlen], s.mode.got[s.mode.nlen..])), 0)
  {
    hide TreesMode, Decode;
  }

  /** The header gives the decoder the lengths of both trees. */
  lemma HeaderRun(c: Config, s: State, p: Plan, q: seq<bool>)
    requires p.Valid() && p.Canonical() && HasCode(p.lt, END_BLOCK) && s.Valid() && s.mode.Table?
    requires Runs(c, Config(s, p.HeaderBits() + q))
    ensures Runs(c, Config(s.(mode := Len(SentTrees(p))), q))
  {
    hide Runs, Plan.Canonical, Plan.Valid, Plan.HeaderBits, Plan.TreeBits, HasCode, CountBits, OrderedLengths,
         State.Valid, Encode,
         Ordered, Items, Agrees, GoodItems, AllSendable, RunLengths.Expand, Accepted;
    PlanLens(p);
    var rest := p.TreeBits() + q;
    assert p.HeaderBits() + q == CountBits(p.lmax, p.dmax, p.maxBl) + (OrderedLengths(p.bt.len, p.maxBl + 1) + rest);
    CountsRun(c, s, p.lmax, p.dmax, p.maxBl, OrderedLengths(p.bt.len, p.maxBl + 1) + rest);
    var d := s.(mode := LenLens(p.lmax + 1, p.dmax + 1, p.maxBl + 1, []));
    RunsValid(c, Config(d, OrderedLengths(p.bt.len, p.maxBl + 1) + rest));
    LengthsRun(c, d, p.lmax + 1, p.dmax + 1, p.maxBl + 1, p.bt.len, p.maxBl + 1, rest);
    var e := s.(mode := LenLens(p.lmax + 1, p.dmax + 1, p.maxBl + 1, Ordered(p.bt.len, p.maxBl + 1)));
    RunsValid(c, Config(e, rest));
    CodesRun(c, e, p, rest);
    var f := s.(mode := CodeLens(p.lmax + 1, p.dmax + 1, p.bt.len[..BL_CODES], []));
    RunsValid(c, Config(f, rest));
    PlanItems(p);
    CodesAgree(p);
    ItemsRun(c, f, Items(p.LLens()) + Items(p.DLens()), p.bt, p.LLens() + p.DLens(), q);
    var g := s.(mode := CodeLens(p.lmax + 1, p.dmax + 1, p.bt.len[..BL_CODES], p.LLens() + p.DLens()));
    RunsValid(c, Config(g, q));
    TreesRun(c, g, p, p.bt.len[..BL_CODES], q);
  }

  // ---------- blocks of a stream ----------

  /**
    Whatever whole bytes the bits and `q` make up: behind the bits the decoder is between two blocks with this output.
   */
  ghost predicate Carries(bits: seq<bool>, last: bool, out: seq<Byte>) {
    forall q: seq<bool> | (|bits| + |q|) % 8 == 0 :: Runs(Config(INITIAL, bits + q), Config(State(Type, last, out), q))
  }

  lemma NothingCarries()
    ensures Carries([], false, [])
  {
    hide Runs;
    forall q: seq<bool>
      ensures Runs(Config(INITIAL, [] + q), Config(State(Type, false, []), q))
    {
      assert [] + q == q;
      RunsStart(Config(INITIAL, q));
    }
  }

  lemma CarriesHere(bits: seq<bool>, last: bool, out: seq<Byte>, q: seq<bool>)
    requires Carries(bits, last, out) && (|bits| + |q|) % 8 == 0
    ensures Runs(Config(INITIAL, bits + q), Config(State(Type, last, out), q))
  {
  }

  /** A block whose symbols have codewords in the decoder's trees. */
  lemma SymbolsBlock(c: Config, s: State, lt: Tree, dt: Tree, done: seq<Symbol>, syms: seq<Symbol>, q: seq<bool>)
    requires s.Valid() && s.mode.Len? && SameTrees(lt, dt, s.mode.t) && AllCodable(syms, lt, dt)
              && HasCode(lt, END_BLOCK)
    requires Expandable(done + syms) && Expandable(done) && s.out == Lz77.Expand(done)
    requires Runs(c, Config(s, SymbolsBits(syms, lt, dt) + CodeBits(lt, END_BLOCK) + q))
    ensures Runs(c, Config(State(Type, s.last, Lz77.Expand(done + syms)), q))
  {
    hide Runs, Leads, SameTrees, AllCodable, HasCode, Expandable, Lz77.Expand, SymbolsBits, CodeBits, State.Valid;
    BodyRun(s, lt, dt, done, syms, q);
    RunsLeads(Config(s, SymbolsBits(syms, lt, dt) + CodeBits(lt, END_BLOCK) + q),
        Config(State(Type, s.last, Lz77.Expand(done + syms)), q));
    RunsJoin(c, Config(s, SymbolsBits(syms, lt, dt) + CodeBits(lt, END_BLOCK) + q),
        Config(State(Type, s.last, Lz77.Expand(done + syms)), q));
  }

  /** The fixed distance code is the identity, apart from the order of its bits. */
  lemma FixedDistCode(n: nat)
    requires n < 32
    ensures Coded(Inflation.FixedTrees().dlens, n) && SentCode(Inflation.FixedTrees().dlens, n) == Reverse(5, n)
  {
    hide Reverse, Count;
    var lens := Inflation.FixedTrees().dlens;
    CountEqual(lens, 5, 5, n);
    forall l: nat
      ensures Total(lens, l) == if l == 5 then 32 else 0
    {
      CountEqual(lens, 5, l, 32);
    }
    assert FirstCode(lens, 2) == 0 && FirstCode(lens, 3) == 0 && FirstCode(lens, 4) == 0;
  }

  lemma FixedAgree(lt: Tree, dt: Tree)
    requires FlushBlock.FixedTrees(lt, dt)
    ensures SameTrees(lt, dt, Inflation.FixedTrees())
  {
    hide SentCode, Reverse, Kraft, Pow2, FixedLengths, CodeValid;
    FixedTreesValid();
    forall k: nat | k < D_CODES && HasCode(dt, k)
      ensures Coded(Inflation.FixedTrees().dlens, k) && Inflation.FixedTrees().dlens[k] == dt.len[k]
      ensures dt.code[k] == SentCode(Inflation.FixedTrees().dlens, k)
    {
      FixedDistCode(k);
    }
  }

  /** A block with the fixed trees carries its symbols' bytes. */
  lemma StaticCarries(before: seq<bool>, after: seq<bool>, last: nat, done: seq<Symbol>, syms: seq<Symbol>, lt: Tree,
      dt: Tree)
    requires Expandable(done) && Expandable(done + syms) && Carries(before, false, Lz77.Expand(done)) && last <= 1
    requires FlushBlock.FixedTrees(lt, dt) && FlushBlock.SentStatic(before, after, last, syms, lt, dt)
    ensures Carries(after, last == 1, Lz77.Expand(done + syms))
  {
    hide Runs, SameTrees, AllCodable, HasCode, Expandable, Lz77.Expand, SymbolsBits, CodeBits, Carries, ToBits,
         FlushBlock.FixedTrees,
         Inflation.FixedTrees, Trees.Valid;
    FixedAgree(lt, dt);
    FixedTreesValid();
    forall q: seq<bool> | (|after| + |q|) % 8 == 0
      ensures Runs(Config(INITIAL, after + q), Config(State(Type, last == 1, Lz77.Expand(done + syms)), q))
    {
      var body := SymbolsBits(syms, lt, dt) + CodeBits(lt, END_BLOCK) + q;
      var c := Config(INITIAL, after + q);
      assert after + q == before + (ToBits(2 * 1 + last, 3) + body);
      CarriesHere(before, false, Lz77.Expand(done), ToBits(2 * 1 + last, 3) + body);
      KindRun(c, State(Type, false, Lz77.Expand(done)), 1, last, body);
      SymbolsBlock(c, State(Len(Inflation.FixedTrees()), last == 1, Lz77.Expand(done)), lt, dt, done, syms, q);
    }
    CarriesIf(after, last == 1, Lz77.Expand(done + syms));
  }

  lemma CarriesIf(bits: seq<bool>, last: bool, out: seq<Byte>)
    requires forall q: seq<bool> | (|bits| + |q|) % 8 == 0 ::
              Runs(Config(INITIAL, bits + q), Config(State(Type, last, out), q))
    ensures Carries(bits, last, out)
  {
  }

  /** The decoder behind the header of a dynamic block. */
  lemma DynamicHeader(before: seq<bool>, after: seq<bool>, last: nat, out: seq<Byte>, syms: seq<Symbol>, p: Plan,
      q: seq<bool>)
    requires Carries(before, false, out) && last <= 1 && FlushBlock.SentDynamic(before, after, last, syms, p)
              && p.Canonical()
    requires (|after| + |q|) % 8 == 0
    ensures Runs(Config(INITIAL, after + q),
                 Config(State(Len(SentTrees(p)), last == 1, out),
                        SymbolsBits(syms, p.lt, p.dt) + CodeBits(p.lt, END_BLOCK) + q))
  {
    hide Runs, SameTrees, AllCodable, HasCode, SymbolsBits, CodeBits, Carries, ToBits, Plan.Valid, Plan.Canonical,
         Plan.HeaderBits, SentTrees;
    var body := SymbolsBits(syms, p.lt, p.dt) + CodeBits(p.lt, END_BLOCK) + q;
    var c := Config(INITIAL, after + q);
    assert after + q == before + (ToBits(2 * 2 + last, 3) + (p.HeaderBits() + body));
    CarriesHere(before, false, out, ToBits(2 * 2 + last, 3) + (p.HeaderBits() + body));
    KindRun(c, State(Type, false, out), 2, last, p.HeaderBits() + body);
    HeaderRun(c, State(Table, last == 1, out), p, body);
  }

  /** A block with its own trees carries its symbols' bytes. */
  lemma DynamicCarries(before: seq<bool>, after: seq<bool>, last: nat, done: seq<Symbol>, syms: seq<Symbol>, p: Plan)
    requires Expandable(done) && Expandable(done + syms) && Carries(before, false, Lz77.Expand(done)) && last <= 1
    requires FlushBlock.SentDynamic(before, after, last, syms, p) && p.Canonical()
    ensures Carries(after, last == 1, Lz77.Expand(done + syms))
  {
    hide Runs, SameTrees, AllCodable, HasCode, Expandable, Lz77.Expand, SymbolsBits, CodeBits, Carries, ToBits,
         Plan.Valid, Plan.Canonical, Plan.HeaderBits, SentTrees;
    TreesAccepted(p);
    forall q: seq<bool> | (|after| + |q|) % 8 == 0
      ensures Runs(Config(INITIAL, after + q), Config(State(Type, last == 1, Lz77.Expand(done + syms)), q))
    {
      DynamicHeader(before, after, last, Lz77.Expand(done), syms, p, q);
      var d := State(Len(SentTrees(p)), last == 1, Lz77.Expand(done));
      RunsValid(Config(INITIAL, after + q), Config(d, SymbolsBits(syms, p.lt, p.dt) + CodeBits(p.lt, END_BLOCK) + q));
      SymbolsBlock(Config(INITIAL, after + q), d, p.lt, p.dt, done, syms, q);
    }
    CarriesIf(after, last == 1, Lz77.Expand(done + syms));
  }

  // ---------- a stored block ----------

  lemma CopyIs(s: State, p: seq<bool>)
    requires s.Valid() && s.mode.Copying?
    ensures Step(s, p) == CopyStep(s, p)
  {
  }

  lemma OneByteRun(c: Config, s: State, left: nat, b: Byte, q: seq<bool>)
    requires s.Valid() && s.mode == Copying(left) && left > 0 && Runs(c, Config(s, ToBits(b, 8) + q))
    ensures Runs(c, Config(State(Copying(left - 1), s.last, s.out + [b]), q))
  {
    hide Runs, ToBits, FromBits;
    SmallPowers();
    NumberBack(b, 8, q);
    CopyIs(s, ToBits(b, 8) + q);
    RunsStep(c, Config(s, ToBits(b, 8) + q));
  }

  /** Stored bytes are put out as they are. */
  lemma {:induction false} BytesRun(c: Config, s: State, left: nat, data: seq<Byte>, q: seq<bool>)
    requires s.Valid() && s.mode == Copying(left) && |data| <= left && Runs(c, Config(s, BytesToBits(data) + q))
    ensures Runs(c, Config(State(Copying(left - |data|), s.last, s.out + data), q))
  {
    hide Runs, ToBits;
    if data == [] {
      assert [] + q == q && s.out + data == s.out;
    } else {
      var front, b := data[..|data| - 1], data[|data| - 1];
      assert BytesToBits(data) + q == BytesToBits(front) + (ToBits(b, 8) + q);
      BytesRun(c, s, left, front, ToBits(b, 8) + q);
      var d := State(Copying(left - |front|), s.last, s.out + front);
      RunsValid(c, Config(d, ToBits(b, 8) + q));
      OneByteRun(c, d, left - |front|, b, q);
      assert s.out + front + [b] == s.out + data;
    }
  }

  /** The padding and the two lengths of a stored block. */
  lemma StoredLengthRun(c: Config, s: State, pad: nat, n: nat, q: seq<bool>)
    requires s.Valid() && s.mode.Stored? && pad < 8 && |q| % 8 == 0 && n < 0x1_0000
    requires Runs(c, Config(s, seq(pad, _ => false) + (ToBits(n, 16) + ToBits(0xffff - n, 16) + q)))
    ensures Runs(c, Config(s.(mode := Copying(n)), q))
  {
    hide Runs, ToBits, FromBits, Pow2;
    SmallPowers();
    Pow2Add(8, 8);
    var p := ToBits(n, 16) + ToBits(0xffff - n, 16) + q;
    var z := seq(pad, _ => false);
    StoredIs(s, z + p);
    StoredIs(s, p);
    assert (z + p)[pad..] == p;
    if pad > 0 {
      RunsStep(c, Config(s, z + p));
    } else {
      assert z + p == p;
    }
    FromTo(n, 16);
    FromTo(0xffff - n, 16);
    assert p[..16] == ToBits(n, 16) && p[16..32] == ToBits(0xffff - n, 16) && p[32..] == q;
    RunsStep(c, Config(s, p));
  }

  lemma StoredIs(s: State, p: seq<bool>)
    requires s.Valid() && s.mode.Stored?
    ensures Step(s, p) == StoredStep(s, p)
  {
  }

  /** A stored block carries its bytes. */
  lemma StoredCarries(before: seq<bool>, last: nat, out: seq<Byte>, data: seq<Byte>)
    requires Carries(before, false, out) && last <= 1 && |data| < 0x1_0000
    ensures Carries(before + FlushBlock.StoredBits(|before|, last, data), last == 1, out + data)
  {
    hide Runs, Carries, ToBits, BytesToBits;
    var after := before + FlushBlock.StoredBits(|before|, last, data);
    forall q: seq<bool> | (|after| + |q|) % 8 == 0
      ensures Runs(Config(INITIAL, after + q), Config(State(Type, last == 1, out + data), q))
    {
      StoredRun(before, last, out, data, q);
    }
    CarriesIf(after, last == 1, out + data);
  }

  lemma StoredRun(before: seq<bool>, last: nat, out: seq<Byte>, data: seq<Byte>, q: seq<bool>)
    requires Carries(before, false, out) && last <= 1 && |data| < 0x1_0000
    requires (|before + FlushBlock.StoredBits(|before|, last, data)| + |q|) % 8 == 0
    ensures Runs(Config(INITIAL, before + FlushBlock.StoredBits(|before|, last, data) + q),
              Config(State(Type, last == 1, out + data), q))
  {
    hide Runs, Carries, ToBits, BytesToBits, Step;
    var n, pad := |data|, FlushBlock.Padding(|before| + 3);
    var bytes := BytesToBits(data) + q;
    var rest := seq(pad, _ => false) + (ToBits(n, 16) + ToBits(0xffff - n, 16) + bytes);
    var c := Config(INITIAL, before + FlushBlock.StoredBits(|before|, last, data) + q);
    RegroupStored(before, ToBits(2 * 0 + last, 3), seq(pad, _ => false), ToBits(n, 16), ToBits(0xffff - n, 16),
        BytesToBits(data), q);
    CarriesHere(before, false, out, ToBits(2 * 0 + last, 3) + rest);
    KindRun(c, State(Type, false, out), 0, last, rest);
    StoredLengthRun(c, State(Stored, last == 1, out), pad, n, bytes);
    RunsValid(c, Config(State(Copying(n), last == 1, out), bytes));
    BytesRun(c, State(Copying(n), last == 1, out), n, data, q);
    var d := Config(State(Copying(0), last == 1, out + data), q);
    RunsValid(c, d);
    CopyIs(d.s, q);
    RunsStep(c, d);
    assert q[0..] == q;
  }

  lemma RegroupStored(b: seq<bool>, k: seq<bool>, z: seq<bool>, m: seq<bool>, n: seq<bool>, d: seq<bool>, q: seq<bool>)
    ensures b + (k + z + m + n + d) + q == b + (k + (z + (m + n + (d + q))))
  {
    assert k + z + m + n + d + q == k + (z + (m + n + (d + q)));
    assert b + (k + z + m + n + d) + q == b + (k + z + m + n + d + q);
  }

  // ---------- whole streams ----------

  /** The three forms of a block, as FlushBlock describes what it sent, carry the block's bytes. */
  lemma BlockCarries(kind: FlushBlock.Kind, before: seq<bool>, after: seq<bool>, last: nat, done: seq<Symbol>,
      syms: seq<Symbol>,
                     data: seq<Byte>, p: Plan, lt: Tree, dt: Tree)
    requires Expandable(done) && Expandable(done + syms) && Carries(before, false, Lz77.Expand(done)) && last <= 1
    requires kind.Stored? ==>
               && Lz77.Expand(done + syms) == Lz77.Expand(done) + data && |data| < 0x1_0000
               && after == before + FlushBlock.StoredBits(|before|, last, data)
    requires kind.Static? ==> FlushBlock.FixedTrees(lt, dt) && FlushBlock.SentStatic(before, after, last, syms, lt, dt)
    requires kind.Dynamic? ==>
               FlushBlock.SentDynamic(before, after, last, syms, p) && p.Canonical()
    ensures Carries(after, last == 1, Lz77.Expand(done + syms))
  {
    hide Expandable, Lz77.Expand, Carries, FlushBlock.StoredBits, FlushBlock.SentStatic, FlushBlock.SentDynamic,
         FlushBlock.FixedTrees, Plan.Canonical;
    match kind
    case Stored => StoredCarries(before, last, Lz77.Expand(done), data);
    case Static => StaticCarries(before, after, last, done, syms, lt, dt);
    case Dynamic => DynamicCarries(before, after, last, done, syms, p);
  }

  /**
    A stream that ends with its last block, filled up to a whole byte, inflates to what it carries, whatever follows
    it.
   */
  lemma StreamInflates(bits: seq<bool>, out: seq<Byte>, pad: seq<bool>, stream: seq<Byte>, more: seq<Byte>)
    requires Carries(bits, true, out) && BytesToBits(stream) == bits + pad && |pad| < 8
    ensures Inflates(stream + more, State(Done, true, out))
  {
    hide Carries, BytesToBits, Steps;
    CarriesHere(bits, true, out, pad);
    var c := Config(INITIAL, BytesToBits(stream));
    var d := Config(State(Type, true, out), pad);
    RunsStep(c, d);
    var e := Config(State(Done, true, out), []);
    assert pad[|pad|..] == [];
    assert Runs(c, e);
    assert (stream + more)[..|stream|] == stream;
    assert Reached(stream, e);
  }
}
