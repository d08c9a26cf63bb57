/** The resumable decoder's state, and what it does in each mode (zlib's inflate.c). */
module Inflater {
  import opened Arithmetic
  import opened BitReader
  import opened Bits
  import opened CodeLookup
  import opened DecodingTable
  import opened HuffmanCode
  import opened Inflation
  import opened Lz77
  import BlockSymbols
  import ChunkCopy
  import InfTrees
  import RunLengths
  import TableSpace
  import Window

  const ENOUGH: nat := ENOUGH_LENS + ENOUGH_DISTS
  const WINDOW_SIZE: nat := 0x8000

  datatype Phase =
    TYPE | STORED | COPY | TABLE | LENLENS | CODELENS | LEN | LENEXT | DIST | DISTEXT | MATCH | LIT | DONE | BAD

  /** Both tables of a block are in place. */
  ghost predicate HasTables(l: Decoder, d: Decoder, t: Trees) {
    Built(l, Lens, t.llens) && Built(d, Dists, t.dlens)
  }

  /** The output of this call comes behind the earlier one; the rest of the buffer is as it was. */
  ghost predicate OutputOk(out: seq<Byte>, prior: seq<Byte>, outer: seq<Byte>, output: array<Byte>, beg: nat, put: nat,
      limit: nat)
    reads output
  {
    && beg <= put <= limit <= output.Length == |outer| && out == prior + output[beg..put]
    && output[..beg] == outer[..beg] && output[put..] == outer[put..]
  }

  /** An empty window of 32K. */
  method NewWindow(padding: nat) returns (h: Window.History)
    ensures fresh(h) && fresh(h.window) && h.Valid() && h.Kept() == [] && h.size == WINDOW_SIZE
    ensures h.window.Length == h.size + padding
  {
    BlockSymbols.SmallPowers();
    Pow2Add(8, 7);
    h := new Window.History(15, padding);
  }

  /** The window has the end of the output of the earlier calls. */
  ghost predicate HistoryOk(history: Window.History, prior: seq<Byte>)
    reads history, history.window
  {
    history.Valid() && history.size == WINDOW_SIZE && history.Kept() == Window.Last(prior, WINDOW_SIZE)
  }

  class Inflater {
    // whether the build copies by chunks and reads wide input
    const chunks: bool
    const reader: BitReader
    // what is kept between calls
    var mode: Phase
    var last: bool
    var length: nat
    var offset: nat
    var extra: nat
    var nlen: nat
    var ndist: nat
    var ncode: nat
    var have: nat
    const lens: array<nat>
    const work: array<nat>
    const codes: array<Code>
    const fixed: array<Code>
    var lencode: Decoder
    var distcode: Decoder
    const history: Window.History
    // the call's input and output
    var output: array<Byte>
    var beg: nat
    var put: nat
    var limit: nat
    // what the fields stand for
    ghost var state: State
    ghost var prior: seq<Byte>
    ghost var outer: seq<Byte>

    ghost predicate Sizes() {
      lens.Length == 320 && work.Length == 288 && codes.Length == ENOUGH && fixed.Length == 544 && lens != work
          && codes != fixed
    }

    /** The fields that the mode uses have the mode's values. */
    ghost predicate Shows()
      reads `mode, `state, `length, `offset, `extra, `nlen, `ndist, `ncode, `have, `lencode, `distcode, lens
    {
      Sizes() &&
      match state.mode
      case Type => mode.TYPE?
      case Stored => mode.STORED?
      case Copying(left) => mode.COPY? && length == left
      case Table => mode.TABLE?
      case LenLens(nl, nd, nc, got) =>
        && mode.LENLENS? && nlen == nl && ndist == nd && ncode == nc && have == |got| <= 19
        && forall k :: 0 <= k < have ==> lens[RunLengths.BL_ORDER[k]] == got[k]
      case CodeLens(nl, nd, clens, got) =>
        && mode.CODELENS? && nlen == nl && ndist == nd && have == |got| <= 320 && lens[..have] == got
        && Built(lencode, Codes, clens) && Longest(clens) <= lencode.bits
      case Len(t) => mode.LEN? && HasTables(lencode, distcode, t)
      case LenExt(t, l, e) => mode.LENEXT? && HasTables(lencode, distcode, t) && length == l && extra == e
      case Dist(t, l) => mode.DIST? && HasTables(lencode, distcode, t) && length == l
      case DistExt(t, l, o, e) => mode.DISTEXT? && HasTables(lencode, distcode, t) && length == l && offset == o
          && extra == e
      case Matching(t, l, o) => mode.MATCH? && HasTables(lencode, distcode, t) && length == l && offset == o
      case Lit(t, c) => mode.LIT? && HasTables(lencode, distcode, t) && length == c
      case Done => mode.DONE?
      case Bad => mode.BAD?
    }

    /**
      The bits that were read have led to the present state, and less than a byte of them is held, or too little for a
      step.
     */
    ghost predicate Input()
      reads `state, reader
    {
      && reader.Buffered() && Reached(reader.fed, Config(state, reader.pending)) && reader.bits <= 32
      && (reader.bits < 8 || Halted(Config(state, reader.pending)))
    }

    /** The decoder is ready for a step in its mode. */
    ghost predicate Ready()
      reads `mode, `state, `length, `offset, `extra, `nlen, `ndist, `ncode, `have, `lencode, `distcode, `last, reader,
            lens
    {
      Input() && Shows() && last == state.last && (mode.COPY? ==> reader.bits == 0)
    }

    /** The output and the window are not the decoder's other arrays; behind the window is room for a chunk. */
    ghost predicate Apart(a: array<Byte>)
      reads this
    {
      && a != history.window && (a as object) != lens && (a as object) != work && (a as object) != codes
         && (a as object) != fixed
      && (history.window as object) != lens && (history.window as object) != work
      && (history.window as object) != codes && (history.window as object) != fixed
      && (chunks ==> history.size + ChunkCopy.CHUNK <= history.window.Length)
    }

    ghost predicate Valid()
      reads this, reader, lens, output, history, history.window
    {
      && Ready() && Apart(output) && history.Valid() && history.size == WINDOW_SIZE
         && OutputOk(state.out, prior, outer, output, beg, put, limit)
      && (!mode.DONE? && !mode.BAD? ==> HistoryOk(history, prior))
    }

    lemma OpenReady()
      requires Ready()
      ensures Input() && Shows() && last == state.last && (mode.COPY? ==> reader.bits == 0)
      ensures state.Valid() && reader.Buffered() && Reached(reader.fed, Config(state, reader.pending))
                && reader.bits <= 32
      ensures reader.bits < 8 || Halted(Config(state, reader.pending))
    {
      hide Reached, FromBits, Shows, State.Valid, Halted;
    }

    /** With less than a byte left over the decoder is ready again. */
    lemma ReadyAgain()
      requires reader.Buffered() && Reached(reader.fed, Config(state, reader.pending)) && reader.bits <= 32
      requires reader.bits < 8 || Halted(Config(state, reader.pending))
      requires Shows() && last == state.last && (mode.COPY? ==> reader.bits == 0)
      ensures Ready()
    {
      hide Reached, FromBits, Shows, State.Valid, Halted;
    }

    /** All input of the call is still there, read or unread. */
    twostate predicate SameInput()
      reads this, reader
    {
      reader.fed + reader.nextIn == old(reader.fed + reader.nextIn)
    }

    /** A decoder for a raw stream with a window of 32K (inflateInit2 and inflateResetKeep). */
    constructor (chunks: bool)
      ensures Valid() && state == INITIAL && reader.fed == [] && reader.nextIn == [] && this.chunks == chunks
      ensures beg == put && prior == []
      ensures fresh(lens) && fresh(work) && fresh(codes) && fresh(fixed) && fresh(output) && fresh(history)
                && fresh(history.window)
      ensures fresh(reader)
    {
      hide Ready, Valid, Shows, Input, BitReader.Buffered, Window.History.Valid, Window.History.Kept;
      this.chunks := chunks;
      mode, last, length, offset, extra := TYPE, false, 0, 0, 0;
      nlen, ndist, ncode, have := 0, 0, 0, 0;
      lens := new nat[320];
      work := new nat[288];
      codes := new Code[ENOUGH](_ => INVALID);
      fixed := new Code[544](_ => INVALID);
      lencode, distcode := Decoder([], 0), Decoder([], 0);
      var r := new BitReader();
      reader := r;
      var h := NewWindow(if chunks then ChunkCopy.CHUNK else 0);
      history := h;
      output := new Byte[0];
      beg, put, limit := 0, 0, 0;
      prior, outer := [], [];
      state := INITIAL;
      new;
      BeginsReady();
      BeginsValid();
    }

    lemma BeginsReady()
      requires lens.Length == 320 && work.Length == 288 && codes.Length == ENOUGH && fixed.Length == 544
      requires lens != work && codes != fixed && state == INITIAL && mode.TYPE? && !last
      requires reader.Buffered() && reader.fed == [] && reader.pending == [] && reader.bits == 0
      ensures Ready()
    {
      assert Steps(Config(INITIAL, BytesToBits([])), 0) == Some(Config(state, []));
    }

    lemma BeginsValid()
      requires Ready() && state == INITIAL && Apart(output) && output.Length == 0 && beg == put == limit == 0
      requires prior == [] && outer == [] && history.Valid() && history.size == WINDOW_SIZE && history.Kept() == []
      ensures Valid()
    {
      hide Ready, Window.Circular;
    }

    // ---------- modes ----------

    /** The order of the modes along which no bit is used and nothing is put out. */
    function Rank(m: Phase): nat {
      match m
      case BAD => 0 case DONE => 0 case TYPE => 1 case LIT => 1 case MATCH => 1 case COPY => 2 case STORED => 3
      case DISTEXT => 2
      case DIST => 3 case LENEXT => 4 case LEN => 5 case CODELENS => 6 case LENLENS => 7 case TABLE => 8
    }

    /** Bits are used, or something is put out, or the mode is a later one. */
    twostate predicate Progress()
      reads this, reader
    {
      || reader.Todo() < old(reader.Todo())
      || (reader.Todo() == old(reader.Todo()) && (put > old(put) || (put == old(put) && Rank(mode) < Rank(old(mode)))))
    }

    /** There is no more input, and what is held is not enough for a step. */
    ghost predicate Starved()
      reads `state, reader
    {
      reader.nextIn == [] && Halted(Config(state, reader.pending))
    }

    /** Reading more input leaves the state where it is. */
    lemma StillReached(fed: seq<Byte>, next: seq<Byte>, bits: seq<bool>)
      requires Reached(fed, Config(state, bits)) && reader.Reads(fed, next, bits)
      ensures Reached(reader.fed, Config(state, reader.pending))
    {
      hide Reached, BytesToBits;
      ReachedMore(fed, Config(state, bits), reader.fed[|fed|..]);
      assert reader.fed == fed + reader.fed[|fed|..];
    }

    /** Reads bits for the present mode. */
    method NeedBits(n: nat) returns (ok: bool)
      requires reader.Buffered() && Reached(reader.fed, Config(state, reader.pending))
      modifies reader
      ensures reader.Buffered() && Reached(reader.fed, Config(state, reader.pending)) && SameInput()
                && reader.Todo() == old(reader.Todo())
      ensures ok <==> reader.bits >= n
      ensures old(reader.pending) <= reader.pending && (!ok ==> reader.nextIn == [])
      ensures (reader.pending == old(reader.pending) || reader.bits < n + 8) && reader.bits % 8 == old(reader.bits) % 8
    {
      hide Reached, BytesToBits, FromBits;
      ok := reader.NeedBits(n);
      StillReached(old(reader.fed), old(reader.nextIn), old(reader.pending));
    }

    /** Uses up the bits of a step, which is taken. */
    method Take(n: nat)
      requires reader.Buffered() && Reached(reader.fed, Config(state, reader.pending))
      requires Step(state, reader.pending).Next? && Step(state, reader.pending).used == n <= reader.bits
      modifies reader`hold, reader`bits, reader`pending, `state
      ensures reader.Buffered() && Reached(reader.fed, Config(state, reader.pending))
      ensures state == old(Step(state, reader.pending).state) && reader.pending == old(reader.pending)[n..]
    {
      hide Reached, FromBits, Step, State.Valid, Trees.Valid, BytesToBits;
      ghost var r := Step(state, reader.pending);
      ReachedStep(reader.fed, Config(state, reader.pending));
      reader.Drop(n);
      state := r.state;
    }

    // what the fields say of the mode, and the other way round

    lemma AtLenExt()
      requires Shows() && mode.LENEXT?
      ensures state.mode == LenExt(state.mode.t, length, extra) && HasTables(lencode, distcode, state.mode.t) && Sizes()
    {
    }

    lemma AtDistExt()
      requires Shows() && mode.DISTEXT?
      ensures state.mode == DistExt(state.mode.t, length, offset, extra) && HasTables(lencode, distcode, state.mode.t)
                && Sizes()
    {
    }

    lemma AtLen()
      requires Shows() && mode.LEN?
      ensures state.mode == Len(state.mode.t) && HasTables(lencode, distcode, state.mode.t) && Sizes()
    {
    }

    lemma AtDist()
      requires Shows() && mode.DIST?
      ensures state.mode == Mode.Dist(state.mode.t, length) && HasTables(lencode, distcode, state.mode.t) && Sizes()
    {
    }

    method DoLenExt() returns (ok: bool)
      requires Ready() && mode.LENEXT?
      modifies reader, `state, `mode, `length
      ensures Ready() && SameInput() && state.out == old(state.out) && (if ok then Progress() else Starved())
    {
      hide Reached, FromBits, Pow2, Step, HasTables, Trees.Valid, Shows;
      AtLenExt();
      LenExtIs(state, reader.pending);
      ok := NeedBits(extra);
      LenExtIs(state, reader.pending);
      if ok {
        reader.LowAre(extra);
        var more := reader.LowBits(extra);
        Take(extra);
        length, mode := length + more, DIST;
        ShowDist();
      }
    }

    lemma ShowDist()
      requires Sizes() && state.mode.Dist? && mode.DIST? && length == state.mode.length
                && HasTables(lencode, distcode, state.mode.t)
      ensures Shows()
    {
    }

    method DoDistExt() returns (ok: bool)
      requires Ready() && mode.DISTEXT?
      modifies reader, `state, `mode, `offset
      ensures Ready() && SameInput() && state.out == old(state.out) && (if ok then Progress() else Starved())
    {
      hide Reached, FromBits, Pow2, Step, HasTables, Trees.Valid, Shows;
      AtDistExt();
      DistExtIs(state, reader.pending);
      ok := NeedBits(extra);
      DistExtIs(state, reader.pending);
      if ok {
        reader.LowAre(extra);
        var more := reader.LowBits(extra);
        Take(extra);
        offset, mode := offset + more, MATCH;
        ShowMatch();
      }
    }

    lemma ShowMatch()
      requires Sizes() && state.mode.Matching? && mode.MATCH? && HasTables(lencode, distcode, state.mode.t)
      requires length == state.mode.length && offset == state.mode.offset
      ensures Shows()
    {
    }

    /** Reads a literal or length code (the slow form of LEN). */
    method DoLen() returns (ok: bool)
      requires Ready() && mode.LEN?
      modifies reader, `state, `mode, `length, `extra
      ensures Ready() && SameInput() && state.out == old(state.out) && (if ok then Progress() else Starved())
    {
      hide Reached, FromBits, Pow2, Step, Built, CodeValid, Decode, BytesToBits, Shows, LenMode;
      AtLen();
      ghost var t := state.mode.t;
      LenIs(state, reader.pending);
      var first, here;
      ok, first, here := reader.FindCode(lencode, Lens, t.llens);
      StillReached(old(reader.fed), old(reader.nextIn), old(reader.pending));
      LenIs(state, reader.pending);
      if ok {
        Take(first + here.bits);
        AfterLen(here, t);
      }
    }

    /** What follows a literal or length code. */
    method AfterLen(here: Code, ghost t: Trees)
      requires Sizes() && HasTables(lencode, distcode, t) && state.mode == LenMode(t, here.op, here.val)
      modifies `mode, `length, `extra
      ensures Shows() && !mode.COPY?
    {
      hide HasTables;
      length := here.val;
      if here.op == 0 {
        mode := LIT;
      } else if (here.op / 32) % 2 == 1 {
        mode := TYPE;
      } else if (here.op / 64) % 2 == 1 {
        mode := BAD;
      } else {
        extra, mode := here.op % 16, LENEXT;
      }
    }

    /** Reads a distance code (the slow form of DIST). */
    method DoDist() returns (ok: bool)
      requires Ready() && mode.DIST?
      modifies reader, `state, `mode, `offset, `extra
      ensures Ready() && SameInput() && state.out == old(state.out) && (if ok then Progress() else Starved())
    {
      hide Reached, FromBits, Pow2, Step, Built, CodeValid, Decode, BytesToBits, Shows, DistMode;
      AtDist();
      ghost var t := state.mode.t;
      DistIs(state, reader.pending);
      var first, here;
      ok, first, here := reader.FindCode(distcode, Dists, t.dlens);
      StillReached(old(reader.fed), old(reader.nextIn), old(reader.pending));
      DistIs(state, reader.pending);
      if ok {
        Take(first + here.bits);
        AfterDist(here, t);
      }
    }

    /** What follows a distance code. */
    method AfterDist(here: Code, ghost t: Trees)
      requires Sizes() && HasTables(lencode, distcode, t) && state.mode == DistMode(t, length, here.op, here.val)
      modifies `mode, `offset, `extra
      ensures Shows() && !mode.COPY?
    {
      hide HasTables;
      if (here.op / 64) % 2 == 1 {
        mode := BAD;
      } else {
        offset, extra, mode := here.val, here.op % 16, DISTEXT;
      }
    }

    // ---------- block headers ----------

    lemma AtType()
      requires Shows() && mode.TYPE?
      ensures state.mode == Type && Sizes()
    {
    }

    /** The block's header: whether it is the last, and its kind. */
    method DoType() returns (ok: bool)
      requires Ready() && mode.TYPE?
      modifies reader, `state, `mode, `last, `lencode, `distcode, fixed, work
      ensures Ready() && SameInput() && state.out == old(state.out) && (if ok then Progress() else Starved())
    {
      hide Reached, FromBits, Step, Shows, BlockMode, HasTables, Ready, Input;
      OpenReady();
      AtType();
      TypeIs(state, reader.pending);
      ok := true;
      if last {
        Take(reader.bits % 8);
        mode := DONE;
        ShowDone();
      } else {
        ok := NeedBits(3);
        TypeIs(state, reader.pending);
        if ok {
          ghost var p := reader.pending;
          ReachedStep(reader.fed, Config(state, p));
          state := Step(state, p).state;
          var b := reader.GetBits(1);
          var kind := reader.GetBits(2);
          OneBit(p);
          assert p[1..][..2] == p[1..3] && p[1..][2..] == p[3..];
          last := b == 1;
          AfterType(kind);
        }
      }
      ReadyAgain();
    }

    lemma ShowDone()
      requires Sizes() && state.mode.Done? && mode.DONE?
      ensures Shows()
    {
    }

    /** What follows a block's header. */
    method AfterType(kind: nat)
      requires Sizes() && state.mode == BlockMode(kind)
      modifies `mode, `lencode, `distcode, fixed, work
      ensures Shows() && !mode.COPY?
    {
      hide HasTables, FixedTrees;
      if kind == 0 {
        mode := STORED;
      } else if kind == 1 {
        BuildFixed();
        mode := LEN;
      } else if kind == 2 {
        mode := TABLE;
      } else {
        mode := BAD;
      }
    }

    /** Builds the tables of the fixed trees (fixedtables, as with BUILDFIXED). */
    method BuildFixed()
      requires Sizes()
      modifies `lencode, `distcode, fixed, work
      ensures HasTables(lencode, distcode, FixedTrees())
    {
      hide DecodingTable.Decodes, Rooted, Accepted, TableSize, RootBits, BlockSymbols.FixedLengths;
      var t := FixedTrees();
      FixedTreesValid();
      FixedSizes();
      var ret, end, lenbits := InfTrees.InflateTable(Lens, t.llens, fixed, 0, 9, work);
      lencode := Decoder(fixed[0..end], lenbits);
      var end', distbits;
      ret, end', distbits := InfTrees.InflateTable(Dists, t.dlens, fixed, end, 5, work);
      distcode := Decoder(fixed[end..end'], distbits);
    }

    lemma AtTable()
      requires Shows() && mode.TABLE?
      ensures state.mode == Mode.Table && Sizes()
    {
    }

    /** How many code lengths of each kind follow. */
    method DoTable() returns (ok: bool)
      requires Ready() && mode.TABLE?
      modifies reader, `state, `mode, `nlen, `ndist, `ncode, `have
      ensures Ready() && SameInput() && state.out == old(state.out) && (if ok then Progress() else Starved())
    {
      hide Reached, FromBits, Step, Shows, Ready, Input;
      OpenReady();
      AtTable();
      TableIs(state, reader.pending);
      ok := NeedBits(14);
      TableIs(state, reader.pending);
      if ok {
        TakeTable();
      }
      ReadyAgain();
    }

    /** Reads the numbers of codes. */
    method TakeTable()
      requires reader.Buffered() && Reached(reader.fed, Config(state, reader.pending)) && Sizes()
      requires state.mode.Table? && mode.TABLE? && reader.bits >= 14
      modifies reader`hold, reader`bits, reader`pending, `state, `mode, `nlen, `ndist, `ncode, `have
      ensures reader.Buffered() && Reached(reader.fed, Config(state, reader.pending))
      ensures Shows() && !mode.COPY? && state.last == old(state.last) && state.out == old(state.out)
      ensures reader.bits == old(reader.bits) - 14
    {
      hide Reached, FromBits, Step, Shows, State.Valid, Halted, BytesToBits;
      TableIs(state, reader.pending);
      ghost var p := reader.pending;
      ReachedStep(reader.fed, Config(state, p));
      state := Step(state, p).state;
      var a := reader.GetBits(5);
      var b := reader.GetBits(5);
      var c := reader.GetBits(4);
      assert p[5..][..5] == p[5..10] && p[5..][5..] == p[10..] && p[10..][..4] == p[10..14]
             && p[10..][4..] == p[14..];
      AfterTable(a, b, c);
    }

    method AfterTable(a: nat, b: nat, c: nat)
      requires Sizes() && a < 32 && b < 32 && c < 16
      requires state.mode == if a + 257 > 286 || b + 1 > 30 then Bad else LenLens(a + 257, b + 1, c + 4, [])
      modifies `mode, `nlen, `ndist, `ncode, `have
      ensures Shows() && !mode.COPY?
    {
      nlen, ndist, ncode := a + 257, b + 1, c + 4;
      if nlen > 286 || ndist > 30 {
        mode := BAD;
      } else {
        have := 0;
        mode := LENLENS;
      }
    }

    // ---------- stored blocks ----------

    lemma AtStored()
      requires Shows() && mode.STORED?
      ensures state.mode == Mode.Stored && Sizes()
    {
    }

    /** The length of a stored block, at a byte boundary. */
    method DoStored() returns (ok: bool)
      requires Ready() && mode.STORED?
      modifies reader, `state, `mode, `length
      ensures Ready() && SameInput() && state.out == old(state.out) && (if ok then Progress() else Starved())
    {
      hide Reached, FromBits, Step, Shows, Ready, Input, Halted, State.Valid, Trees.Valid, BytesToBits;
      OpenReady();
      AtStored();
      ok := AlignedBits();
      if ok {
        StoredLength();
      } else {
        StoredWaits();
      }
      ReadyAgain();
    }

    /** Goes to a byte boundary and reads 32 bits. */
    method AlignedBits() returns (ok: bool)
      requires Input() && state.mode.Stored?
      modifies reader, `state
      ensures reader.Buffered() && Reached(reader.fed, Config(state, reader.pending)) && state == old(state)
      ensures SameInput() && reader.Todo() <= old(reader.Todo()) && reader.bits % 8 == 0
      ensures if ok then reader.bits == 32 else reader.bits < 32 && reader.nextIn == []
    {
      hide Reached, FromBits, Step, Ready, Input, Halted, State.Valid, BytesToBits;
      Align();
      InputParts();
      ok := NeedBits(32);
    }

    lemma InputParts()
      requires Input()
      ensures reader.Buffered() && Reached(reader.fed, Config(state, reader.pending)) && reader.bits <= 32
      ensures reader.bits < 8 || Halted(Config(state, reader.pending))
    {
      hide Reached, FromBits, Halted;
    }

    /** At a byte boundary fewer than 32 bits are too few. */
    lemma StoredWaits()
      requires state.Valid() && state.mode.Stored? && |reader.pending| % 8 == 0 && |reader.pending| < 32
      ensures Halted(Config(state, reader.pending))
    {
      StoredIs(state, reader.pending);
    }

    /** Goes to a byte boundary (BYTEBITS). */
    method Align()
      requires Input() && state.mode.Stored?
      modifies reader, `state
      ensures Input() && state == old(state) && reader.bits % 8 == 0 && reader.Todo() <= old(reader.Todo())
                && SameInput()
    {
      hide Reached, FromBits, Step;
      StoredIs(state, reader.pending);
      if reader.bits % 8 != 0 {
        Take(reader.bits % 8);
      }
    }

    method StoredLength()
      requires reader.Buffered() && Reached(reader.fed, Config(state, reader.pending))
      requires state.mode.Stored? && mode.STORED? && reader.bits == 32 && Sizes()
      modifies reader, `state, `mode, `length
      ensures reader.Buffered() && Reached(reader.fed, Config(state, reader.pending)) && reader.bits <= 32
      ensures reader.bits == 0 || Halted(Config(state, reader.pending))
      ensures Shows() && (mode.COPY? ==> reader.bits == 0) && state.last == old(state.last)
                && state.out == old(state.out)
      ensures reader.Todo() <= old(reader.Todo()) && (mode.BAD? || reader.Todo() < old(reader.Todo())) && SameInput()
    {
      hide Reached, FromBits, Step, Shows, State.Valid, Trees.Valid, BytesToBits, Halted, Input, Ready;
      StoredFull(state, reader.pending);
      reader.LowAre(16);
      FromBitsPrefix(reader.pending, 16);
      var len, complement := reader.LowBits(16), reader.hold / Pow2(16);
      if len + complement != 0xffff {
        RejectLength();
      } else {
        AcceptLength(len);
      }
    }

    /** The two lengths do not match. */
    method RejectLength()
      requires reader.Buffered() && Reached(reader.fed, Config(state, reader.pending)) && Sizes()
      requires state.mode.Stored? && Step(state, reader.pending) == Next(state.(mode := Bad), 0)
      modifies reader`hold, reader`bits, reader`pending, `state, `mode
      ensures reader.Buffered() && Reached(reader.fed, Config(state, reader.pending))
      ensures Halted(Config(state, reader.pending)) && reader.pending == old(reader.pending)
      ensures Shows() && mode.BAD? && state.last == old(state.last) && state.out == old(state.out)
    {
      hide Reached, FromBits, Step, State.Valid, Trees.Valid, BytesToBits, Halted, Input, Ready;
      Take(0);
      assert old(reader.pending)[0..] == old(reader.pending);
      mode := BAD;
      BadHalts(state, reader.pending);
    }

    /** The length of a stored block. */
    method AcceptLength(len: nat)
      requires reader.Buffered() && Reached(reader.fed, Config(state, reader.pending)) && Sizes() && reader.bits == 32
      requires state.mode.Stored? && Step(state, reader.pending) == Next(state.(mode := Copying(len)), 32)
      modifies reader`hold, reader`bits, reader`pending, `state, `mode, `length
      ensures reader.Buffered() && Reached(reader.fed, Config(state, reader.pending)) && reader.bits == 0
      ensures Shows() && mode.COPY? && state.last == old(state.last) && state.out == old(state.out)
    {
      hide Reached, FromBits, Step, State.Valid, Trees.Valid, BytesToBits, Halted, Input, Ready, Shows;
      Take(32);
      length, mode := len, COPY;
      ShowCopy();
    }

    lemma ShowCopy()
      requires Sizes() && ((state.mode == Copying(length) && mode.COPY?) || (state.mode.Bad? && mode.BAD?))
      ensures Shows()
    {
    }

    // ---------- output ----------

    lemma AtCopy()
      requires Shows() && mode.COPY?
      ensures state.mode == Copying(length) && Sizes()
    {
    }

    /** Copies the bytes of a stored block, as many as there are and as fit. */
    method DoCopy() returns (ok: bool)
      requires Valid() && mode.COPY?
      modifies reader, `state, `mode, `length, `put, output
      ensures Valid() && SameInput() && (if ok then Progress() else Starved() || (put == limit && mode.COPY?))
    {
      hide Reached, FromBits, Step, Shows, OutputOk, HistoryOk, State.Valid, Trees.Valid, BytesToBits;
      AtCopy();
      CopyIs(state, reader.pending);
      OutputBounds(state.out, prior, outer, output, beg, put, limit);
      if length > 0 {
        var copy := Min(Min(length, |reader.nextIn|), limit - put);
        ok := copy > 0;
        if ok {
          CopyStored(copy);
        }
      } else {
        Take(0);
        mode := TYPE;
        ShowType();
        ok := true;
      }
    }

    lemma ShowType()
      requires Sizes() && state.mode.Type? && mode.TYPE?
      ensures Shows()
    {
    }

    method CopyStored(copy: nat)
      requires Input() && reader.bits == 0 && Sizes() && state.mode == Copying(length) && mode.COPY?
      requires OutputOk(state.out, prior, outer, output, beg, put, limit) && copy <= length && copy <= |reader.nextIn|
                && copy <= limit - put
      modifies reader, `state, `length, `put, output
      ensures Input() && Shows() && SameInput() && reader.bits == 0 && state.last == old(state.last)
      ensures reader.Todo() == old(reader.Todo()) - 8 * copy
                && OutputOk(state.out, prior, outer, output, beg, put, limit)
    {
      hide Reached, FromBits, Step, Shows, State.Valid, Trees.Valid, BytesToBits, OutputOk;
      ghost var data, s := reader.nextIn[..copy], state;
      assert reader.pending == [];
      StoreBytes(output, put, reader.nextIn[..copy], s.out, prior, outer, beg, limit);
      ReachedCopy(reader.fed, s, data);
      reader.Skip(copy);
      put, length, state := put + copy, length - copy, State(Copying(length - copy), s.last, s.out + data);
      ShowCopy();
    }

    lemma AtLit()
      requires Shows() && mode.LIT?
      ensures state.mode == Mode.Lit(state.mode.t, length) && HasTables(lencode, distcode, state.mode.t) && Sizes()
    {
    }

    lemma ShowLen()
      requires Sizes() && state.mode.Len? && mode.LEN? && HasTables(lencode, distcode, state.mode.t)
      ensures Shows()
    {
    }

    /** Puts out a literal. */
    method DoLit() returns (ok: bool)
      requires Valid() && mode.LIT?
      modifies `state, `mode, `put, output
      ensures Valid() && SameInput() && (if ok then Progress() else put == limit && mode.LIT?)
    {
      hide Reached, FromBits, Step, Shows, OutputOk, HistoryOk, HasTables, State.Valid, Trees.Valid, BytesToBits;
      AtLit();
      LitIs(state, reader.pending);
      OutputBounds(state.out, prior, outer, output, beg, put, limit);
      ok := put < limit;
      if ok {
        ghost var r := LitStep(state);
        ReachedStep(reader.fed, Config(state, reader.pending));
        assert reader.pending[0..] == reader.pending;
        StoreByte(output, put, length, state.out, prior, outer, beg, limit);
        put, mode, state := put + 1, LEN, r.state;
        ShowLen();
      }
    }

    // ---------- matches ----------

    lemma AtMatch()
      requires Shows() && mode.MATCH?
      ensures state.mode == Matching(state.mode.t, length, offset) && HasTables(lencode, distcode, state.mode.t)
                && Sizes()
    {
    }

    /** The byte in the window that is `back - k` bytes before the end of the earlier output. */
    lemma WindowByte(back: nat, k: nat)
      requires HistoryOk(history, prior) && 1 <= back <= history.whave && k < history.RunOf(back)
      ensures back <= |prior| && history.IndexOf(back) + k < history.window.Length
      ensures history.window[history.IndexOf(back) + k] == prior[|prior| - back + k]
    {
      history.BackFromEnd(back, k);
    }

    /** Copies a part of a match that lies in the window without a wrap-around. */
    method CopyWindow(back: nat, from: nat, n: nat)
      requires OutputOk(state.out, prior, outer, output, beg, put, limit) && HistoryOk(history, prior)
                && output != history.window
      requires 1 <= back <= history.whave && from == history.IndexOf(back) && n <= history.RunOf(back)
                && n <= limit - put
      requires offset == back + (put - beg) && offset <= |state.out|
      modifies output
      ensures OutputOk(Copy(state.out, offset, n), prior, outer, output, beg, put + n, limit)
    {
      hide HistoryOk, OutputOk;
      OutputBounds(state.out, prior, outer, output, beg, put, limit);
      ghost var out := state.out;
      var i := 0;
      while i < n
        invariant 0 <= i <= n && OutputOk(Copy(out, offset, i), prior, outer, output, beg, put + i, limit)
        invariant HistoryOk(history, prior)
      {
        WindowByte(back, i);
        ghost var r := Copy(out, offset, i);
        EarlierByte(r, prior, outer, output, beg, put + i, limit, offset);
        StoreByte(output, put + i, history.window[from + i], r, prior, outer, beg, limit);
        i := i + 1;
      }
    }

    /** Copies a part of a match from the output of this call, byte by byte. */
    method CopyOutput(n: nat)
      requires OutputOk(state.out, prior, outer, output, beg, put, limit) && 1 <= offset <= put - beg
                && n <= limit - put
      modifies output
      ensures OutputOk(Copy(state.out, offset, n), prior, outer, output, beg, put + n, limit)
    {
      hide OutputOk;
      OutputBounds(state.out, prior, outer, output, beg, put, limit);
      ghost var out := state.out;
      var i := 0;
      while i < n
        invariant 0 <= i <= n && OutputOk(Copy(out, offset, i), prior, outer, output, beg, put + i, limit)
      {
        CopyByte(i, out);
        i := i + 1;
      }
    }

    /** One byte more of a match. */
    method CopyByte(i: nat, ghost out: seq<Byte>)
      requires 1 <= offset <= |out| && OutputOk(Copy(out, offset, i), prior, outer, output, beg, put + i, limit)
      requires offset <= put - beg && put + i < limit
      modifies output
      ensures OutputOk(Copy(out, offset, i + 1), prior, outer, output, beg, put + i + 1, limit)
    {
      hide OutputOk;
      ghost var r := Copy(out, offset, i);
      OutputBounds(r, prior, outer, output, beg, put + i, limit);
      LaterByte(r, prior, outer, output, beg, put + i, limit, offset);
      StoreByte(output, put + i, output[put + i - offset], r, prior, outer, beg, limit);
    }

    /** Copies the bytes of a match from the window or from the output, as many as fit and as one place has. */
    method MoveBytes() returns (n: nat)
      requires OutputOk(state.out, prior, outer, output, beg, put, limit) && HistoryOk(history, prior)
      requires output != history.window && put < limit && 1 <= length
      requires 1 <= offset <= |state.out| && offset - (put - beg) <= history.whave
      modifies output
      ensures 1 <= n <= length && n <= limit - put && HistoryOk(history, prior)
      ensures OutputOk(Copy(state.out, offset, n), prior, outer, output, beg, put + n, limit)
    {
      hide OutputOk, HistoryOk, Copy;
      OutputBounds(state.out, prior, outer, output, beg, put, limit);
      HistoryBounds(history, prior);
      var copy := put - beg;
      if offset > copy {
        copy := offset - copy;
        var from := history.IndexOf(copy);
        n := Min(Min(history.RunOf(copy), length), limit - put);
        CopyWindow(copy, from, n);
      } else {
        n := Min(length, limit - put);
        CopyOutput(n);
      }
    }

    /** Moves the bytes of a match that does not reach back too far, and accounts for them. */
    method MatchOn()
      requires Valid() && mode.MATCH? && put < limit && offset - (put - beg) <= history.whave
      modifies `state, `mode, `length, `put, output
      ensures Valid() && SameInput() && Progress()
    {
      hide Reached, FromBits, Step, Shows, OutputOk, HistoryOk, HasTables, State.Valid, Trees.Valid, BytesToBits, Copy;
      AtMatch();
      MatchIs(state, reader.pending);
      OutputBounds(state.out, prior, outer, output, beg, put, limit);
      HistoryBounds(history, prior);
      var n := MoveBytes();
      AfterCopy(n);
    }

    /** Copies a match, as much of it as fits and as one place has. */
    method DoMatch() returns (ok: bool)
      requires Valid() && mode.MATCH?
      modifies `state, `mode, `length, `put, output
      ensures Valid() && SameInput() && (if ok then Progress() else put == limit && mode.MATCH?)
    {
      hide Reached, FromBits, Step, Shows, OutputOk, HistoryOk, HasTables, State.Valid, Trees.Valid, BytesToBits;
      AtMatch();
      MatchIs(state, reader.pending);
      OutputBounds(state.out, prior, outer, output, beg, put, limit);
      HistoryBounds(history, prior);
      ok := put < limit;
      if ok {
        if offset - (put - beg) > history.whave {
          TooFar();
        } else {
          MatchOn();
        }
      }
    }

    /** The distance reaches back before all output. */
    method TooFar()
      requires Input() && Shows() && mode.MATCH? && state.mode.Matching? && state.mode.offset > |state.out|
      modifies `state, `mode
      ensures Input() && Shows() && mode.BAD? && state.out == old(state.out) && state.last == old(state.last)
    {
      hide Reached, FromBits, Step, State.Valid, Trees.Valid, BytesToBits;
      MatchIs(state, reader.pending);
      ReachedStep(reader.fed, Config(state, reader.pending));
      assert reader.pending[0..] == reader.pending;
      mode, state := BAD, State(Bad, state.last, state.out);
      BadHalts(state, reader.pending);
    }

    /** Accounts for `n` copied bytes. */
    method AfterCopy(n: nat)
      requires Input() && Shows() && mode.MATCH? && 1 <= n <= length && 1 <= offset <= |state.out|
      requires OutputOk(Copy(state.out, offset, n), prior, outer, output, beg, put + n, limit)
      modifies `state, `mode, `length, `put
      ensures Input() && Shows() && (mode.MATCH? || mode.LEN?) && state.last == old(state.last) && put == old(put) + n
      ensures OutputOk(state.out, prior, outer, output, beg, put, limit)
    {
      hide Reached, FromBits, Step, State.Valid, Trees.Valid, BytesToBits, HasTables, OutputOk, Shows;
      AtMatch();
      MatchIs(state, reader.pending);
      ReachedMatch(reader.fed, state, reader.pending, n);
      ghost var s := State(MatchRest(state.mode, n), state.last, Copy(state.out, offset, n));
      put, length, state := put + n, length - n, s;
      if length == 0 {
        mode := LEN;
        ShowLen();
      } else {
        ShowMatch();
      }
    }

    // ---------- code lengths ----------

    lemma AtLenLens()
      requires Shows() && mode.LENLENS? && state.Valid()
      ensures Sizes() && state.mode.LenLens? && state.mode == LenLens(nlen, ndist, ncode, state.mode.got)
      ensures have == |state.mode.got| <= ncode <= 19 && forall k :: 0 <= k < have ==>
                lens[RunLengths.BL_ORDER[k]] == state.mode.got[k]
    {
    }

    lemma ShowLenLens()
      requires Sizes() && mode.LENLENS? && state.mode.LenLens?
                && state.mode == LenLens(nlen, ndist, ncode, state.mode.got)
      requires have == |state.mode.got| <= 19 && forall k :: 0 <= k < have ==>
                lens[RunLengths.BL_ORDER[k]] == state.mode.got[k]
      ensures Shows()
    {
    }

    /** One length of the code length code. */
    method LenLensOne() returns (ok: bool)
      requires Ready() && mode.LENLENS? && have < ncode
      modifies reader, `state, `have, lens
      ensures Ready() && SameInput() && state.out == old(state.out) && state.mode.LenLens?
      ensures if ok then reader.Todo() < old(reader.Todo()) else Starved()
    {
      hide Reached, FromBits, Step, Shows, BytesToBits, Ready, Input;
      OpenReady();
      AtLenLens();
      LenLensIs(state, reader.pending);
      ok := NeedBits(3);
      LenLensIs(state, reader.pending);
      if ok {
        TakeLenLen();
      }
      ReadyAgain();
    }

    /** Reads one length of the code length code. */
    method TakeLenLen()
      requires reader.Buffered() && Reached(reader.fed, Config(state, reader.pending)) && Shows()
      requires mode.LENLENS? && have < ncode && reader.bits >= 3
      modifies reader`hold, reader`bits, reader`pending, `state, `have, lens
      ensures reader.Buffered() && Reached(reader.fed, Config(state, reader.pending))
      ensures Shows() && state.mode.LenLens? && state.last == old(state.last) && state.out == old(state.out)
      ensures reader.bits == old(reader.bits) - 3
    {
      hide Reached, FromBits, Step, Shows, Halted, BytesToBits;
      AtLenLens();
      LenLensIs(state, reader.pending);
      ghost var p, m := reader.pending, state.mode;
      ReachedStep(reader.fed, Config(state, p));
      var v := reader.GetBits(3);
      OrderDistinct();
      lens[RunLengths.BL_ORDER[have]] := v;
      have, state := have + 1, State(LenLens(nlen, ndist, ncode, m.got + [v]), state.last, state.out);
      ShowLenLens();
    }

    /** The code length code's table is built when all its lengths are there. */
    method LenLensEnd()
      requires Ready() && mode.LENLENS? && have == ncode
      modifies `state, `mode, `have, `lencode, lens, codes, work
      ensures Ready() && state.out == old(state.out) && (mode.CODELENS? || mode.BAD?)
    {
      hide Reached, FromBits, Step, Shows, BytesToBits, Accepted, Scatter, Built, Longest, CodeValid;
      AtLenLens();
      LenLensIs(state, reader.pending);
      ReachedStep(reader.fed, Config(state, reader.pending));
      assert reader.pending[0..] == reader.pending;
      ghost var m, r := state.mode, LenLensStep(state, reader.pending);
      FillZeroes(m.got);
      BuildCodes(m.got);
      state := r.state;
      if mode.BAD? {
        BadHalts(state, reader.pending);
      }
      ShowCodes();
    }

    lemma ShowCodes()
      requires Sizes() && ((mode.BAD? && state.mode.Bad?) || (mode.CODELENS? && state.mode.CodeLens?))
      requires state.mode.CodeLens? ==>
        && state.mode == CodeLens(nlen, ndist, state.mode.clens, []) && have == 0
        && Built(lencode, Codes, state.mode.clens) && Longest(state.mode.clens) <= lencode.bits
      ensures Shows()
    {
    }

    /** The lengths that were not sent are zero. */
    method FillZeroes(ghost got: seq<nat>)
      requires Sizes() && have == |got| <= 19 && forall k :: 0 <= k < have ==> lens[RunLengths.BL_ORDER[k]] == got[k]
      modifies `have, lens
      ensures lens[..19] == Scatter(got)
    {
      hide Scatter;
      OrderDistinct();
      while have < 19
        invariant |got| <= have <= 19
        invariant forall k :: 0 <= k < have ==> lens[RunLengths.BL_ORDER[k]] == if k < |got| then got[k] else 0
      {
        lens[RunLengths.BL_ORDER[have]] := 0;
        have := have + 1;
      }
      ScatterIs(got, lens[..19]);
    }

    method BuildCodes(ghost got: seq<nat>)
      requires Sizes() && |got| <= 19 && AllLess(got, 8) && lens[..19] == Scatter(got)
      modifies `mode, `have, `lencode, codes, work
      ensures if Accepted(Codes, Scatter(got)) then
                mode.CODELENS? && have == 0 && Built(lencode, Codes, Scatter(got))
                    && Longest(Scatter(got)) <= lencode.bits
              else mode.BAD?
    {
      hide DecodingTable.Decodes, Rooted, Accepted, TableSize, RootBits, Longest;
      ScatterLess(got, 8);
      CodesRoom(Scatter(got));
      ShortCodes(Scatter(got));
      var ret, end, bits := InfTrees.InflateTable(Codes, lens[..19], codes, 0, 7, work);
      if ret != 0 {
        mode := BAD;
      } else {
        lencode := Decoder(codes[0..end], bits);
        have := 0;
        mode := CODELENS;
      }
    }

    lemma AtCodeLens()
      requires Shows() && mode.CODELENS? && state.Valid()
      ensures Sizes() && state.mode.CodeLens? && state.mode == CodeLens(nlen, ndist, state.mode.clens, state.mode.got)
      ensures have == |state.mode.got| <= nlen + ndist <= 316 && 257 <= nlen <= 286 && lens[..have] == state.mode.got
      ensures Built(lencode, Codes, state.mode.clens) && Longest(state.mode.clens) <= lencode.bits
    {
    }

    lemma ShowCodeLens(clens: seq<nat>, got: seq<nat>)
      requires Sizes() && mode.CODELENS? && state.mode == CodeLens(nlen, ndist, clens, got)
      requires have == |got| <= 320 && lens[..have] == got && Built(lencode, Codes, clens)
                && Longest(clens) <= lencode.bits
      ensures Shows()
    {
    }

    /** Reads a code of the code length code: its table is only the root. */
    method FindLength() returns (ok: bool, here: Code)
      requires Input() && Shows() && mode.CODELENS?
      modifies reader
      ensures reader.Buffered() && Reached(reader.fed, Config(state, reader.pending)) && SameInput()
                && reader.Todo() == old(reader.Todo())
      ensures state.mode.CodeLens? && |state.mode.clens| <= MaxSymbols(Codes)
      ensures !ok ==> reader.nextIn == [] && Decode(Codes, state.mode.clens, reader.pending) == TooShort
      ensures ok ==>
                here.bits <= reader.bits
                && Decode(Codes, state.mode.clens, reader.pending) == Decoded(here.op, here.val, here.bits)
      ensures ok ==> 1 <= here.bits <= MAXBITS
      ensures reader.pending == old(reader.pending) || reader.bits <= MAXBITS + 7
      ensures ok ==> reader.pending == old(reader.pending) || reader.bits < here.bits + 8
    {
      hide Reached, FromBits, Step, Shows, BytesToBits, Decode, Built, Longest, Pow2;
      AtCodeLens();
      ghost var clens := state.mode.clens;
      BuiltBounds(lencode, Codes, clens);
      ok, here := reader.FindRoot(lencode, Codes, clens);
      StillReached(old(reader.fed), old(reader.nextIn), old(reader.pending));
      RootEntry(lencode, Codes, clens, reader.pending);
      if reader.pending != old(reader.pending) {
        reader.PulledFew(old(reader.pending), Codes, clens);
      }
      if ok {
        var s := DecodedSymbol(Codes, clens, reader.pending);
      }
    }

    /** What reading code lengths goes on with. */
    twostate predicate Lengthened()
      reads this, reader, lens
    {
      Ready() && SameInput() && state.out == old(state.out) && (mode.CODELENS? || mode.BAD?)
          && reader.Todo() < old(reader.Todo())
    }

    /** One code length, or a repetition. */
    method CodeLensOne() returns (ok: bool)
      requires Ready() && mode.CODELENS? && have < nlen + ndist
      modifies reader, `state, `mode, `have, lens
      ensures if ok then Lengthened() else Ready() && SameInput() && Starved() && state == old(state)
    {
      hide Reached, FromBits, Step, Shows, BytesToBits, Decode, Built, Longest, CodeValid;
      AtCodeLens();
      CodeLensIs(state, reader.pending);
      var here;
      ok, here := FindLength();
      CodeLensIs(state, reader.pending);
      if ok {
        if here.val < 16 {
          OneLength(here);
        } else {
          ok := RepeatLength(here);
        }
      }
    }

    /** The bits begin with the code `here`, and no more of them were read than necessary. */
    ghost predicate Found(here: Code)
      reads this, reader, lens
    {
      && Shows() && mode.CODELENS? && last == state.last && have < nlen + ndist
      && reader.Buffered() && Reached(reader.fed, Config(state, reader.pending)) && 1 <= here.bits <= MAXBITS
         && here.bits <= reader.bits <= 32
      && state.mode.CodeLens? && |state.mode.clens| <= MaxSymbols(Codes)
      && Decode(Codes, state.mode.clens, reader.pending) == Decoded(here.op, here.val, here.bits)
      && (reader.bits < here.bits + 8 || Halted(Config(state, reader.pending)))
    }

    /** A length. */
    method OneLength(here: Code)
      requires Found(here) && here.val < 16
      modifies reader, `state, `have, lens
      ensures Lengthened()
    {
      hide Reached, FromBits, Step, Shows, BytesToBits, Decode, Built, Longest, CodeValid, Ready, Input;
      AtCodeLens();
      CodeLensIs(state, reader.pending);
      ghost var m := state.mode;
      OneLengthStep(state, reader.pending);
      Take(here.bits);
      lens[have] := here.val;
      have := have + 1;
      ShowCodeLens(m.clens, m.got + [here.val]);
      ReadyAgain();
    }

    /** A repetition of the length before, or of zero. */
    method RepeatLength(here: Code) returns (ok: bool)
      requires Found(here) && here.val >= 16
      modifies reader, `state, `mode, `have, lens
      ensures if ok then Lengthened() else Ready() && SameInput() && state == old(state) && mode.CODELENS? && Starved()
    {
      hide Reached, FromBits, Step, Shows, BytesToBits, Decode, Built, Longest, CodeValid;
      AtCodeLens();
      CodeLensIs(state, reader.pending);
      var bits := if here.val == 16 then 2 else if here.val == 17 then 3 else 7;
      ok := NeedBits(here.bits + bits);
      DecodeStill(state.mode.clens, old(reader.pending), reader.pending);
      CodeLensIs(state, reader.pending);
      if ok {
        if here.val == 16 && have == 0 {
          NothingToRepeat(here);
        } else {
          Repeat(here, bits);
        }
      }
    }

    /** The repetition's bits are all there. */
    method Repeat(here: Code, bits: nat)
      requires Shows() && mode.CODELENS? && have < nlen + ndist && here.val >= 16 && here.bits >= 1
      requires reader.Buffered() && Reached(reader.fed, Config(state, reader.pending)) && last == state.last
      requires state.mode.CodeLens? && |state.mode.clens| <= MaxSymbols(Codes)
      requires Decode(Codes, state.mode.clens, reader.pending) == Decoded(here.op, here.val, here.bits)
      requires here.bits + bits <= reader.bits < here.bits + bits + 8 && bits == ExtraBits(here.val)
      requires here.val == 16 ==> have > 0
      modifies reader, `state, `mode, `have, lens
      ensures Lengthened()
    {
      hide Reached, FromBits, Step, Shows, BytesToBits, Decode, Built, Longest, CodeValid, RepeatMode, Ready, Input,
           State.Valid, Trees.Valid;
      AtCodeLens();
      CodeLensIs(state, reader.pending);
      RepeatStep(state, reader.pending, Decoded(here.op, here.val, here.bits), bits);
      ghost var m := state.mode;
      var len := if here.val == 16 then lens[have - 1] else 0;
      assert len == if here.val == 16 then m.got[|m.got| - 1] else 0;
      var v := TakeTwo(here.bits, bits);
      AfterRepeat(len, (if here.val == 18 then 11 else 3) + v, m);
      ReadyAgain();
    }

    /** A repetition without a length before it. */
    method NothingToRepeat(here: Code)
      requires Shows() && mode.CODELENS? && have < nlen + ndist && here.val >= 16 && here.bits >= 1
      requires reader.Buffered() && Reached(reader.fed, Config(state, reader.pending)) && last == state.last
      requires state.mode.CodeLens? && |state.mode.clens| <= MaxSymbols(Codes)
      requires Decode(Codes, state.mode.clens, reader.pending) == Decoded(here.op, here.val, here.bits)
      requires here.val == 16 && have == 0 && here.bits + 2 <= reader.bits <= 32
      modifies reader, `state, `mode
      ensures Lengthened()
    {
      hide Reached, FromBits, Step, Shows, BytesToBits, Decode, Built, Longest, CodeValid, RepeatMode, Ready, Input;
      AtCodeLens();
      CodeLensIs(state, reader.pending);
      RepeatStep(state, reader.pending, Decoded(here.op, here.val, here.bits), 2);
      Take(here.bits);
      mode := BAD;
      BadHalts(state, reader.pending);
      ShowBad();
      ReadyAgain();
    }

    lemma ShowBad()
      requires Sizes() && mode.BAD? && state.mode.Bad?
      ensures Shows()
    {
    }

    /** Stores a repetition, if it is not too long. */
    method AfterRepeat(len: nat, copy: nat, ghost m: Mode)
      requires Sizes() && mode.CODELENS? && m.CodeLens? && m == CodeLens(nlen, ndist, m.clens, m.got) && have == |m.got|
      requires nlen + ndist <= 320 && have <= 320 && lens[..have] == m.got && Built(lencode, Codes, m.clens)
                && Longest(m.clens) <= lencode.bits
      requires state.mode == RepeatMode(m, len, copy)
      modifies `mode, `have, lens
      ensures Shows() && (mode.CODELENS? || mode.BAD?)
    {
      hide Built, Longest;
      if have + copy > nlen + ndist {
        mode := BAD;
      } else {
        FillLengths(len, copy);
      }
    }

    /** Uses up the bits of a code and its extra bits, a step that is taken. */
    method TakeTwo(a: nat, b: nat) returns (v: nat)
      requires reader.Buffered() && Reached(reader.fed, Config(state, reader.pending)) && a + b <= reader.bits
      requires Step(state, reader.pending).Next? && Step(state, reader.pending).used == a + b
      modifies reader`hold, reader`bits, reader`pending, `state
      ensures reader.Buffered() && Reached(reader.fed, Config(state, reader.pending))
      ensures state == old(Step(state, reader.pending).state) && reader.pending == old(reader.pending)[a + b..]
      ensures v == FromBits(old(reader.pending)[a..a + b])
    {
      hide Reached, FromBits, Step, State.Valid, Trees.Valid, BytesToBits;
      ghost var p := reader.pending;
      ReachedStep(reader.fed, Config(state, p));
      state := Step(state, p).state;
      reader.Drop(a);
      v := reader.GetBits(b);
      assert p[a..][..b] == p[a..a + b] && p[a..][b..] == p[a + b..];
    }

    /** Stores `copy` equal lengths. */
    method FillLengths(len: nat, copy: nat)
      requires Sizes() && have + copy <= 320
      modifies `have, lens
      ensures have == old(have) + copy && lens[..have] == old(lens[..have]) + RunLengths.Repeat(len, copy)
    {
      var n := 0;
      while n < copy
        invariant 0 <= n <= copy && have == old(have) + n
                  && lens[..have] == old(lens[..have]) + RunLengths.Repeat(len, n)
      {
        lens[have] := len;
        have := have + 1;
        n := n + 1;
        assert lens[..have] == lens[..have - 1] + [len];
        assert RunLengths.Repeat(len, n) == RunLengths.Repeat(len, n - 1) + [len];
      }
    }

    /** Both tables are built when all code lengths are there. */
    method CodeLensEnd()
      requires Ready() && mode.CODELENS? && have == nlen + ndist
      modifies `state, `mode, `lencode, `distcode, codes, work
      ensures Ready() && state.out == old(state.out) && (mode.LEN? || mode.BAD?)
    {
      hide Reached, FromBits, Step, Shows, BytesToBits, TreesMode, Built, Longest, CodeValid, HasTables;
      AtCodeLens();
      CodeLensIs(state, reader.pending);
      ReachedStep(reader.fed, Config(state, reader.pending));
      assert reader.pending[0..] == reader.pending;
      ghost var r, got := CodeLensStep(state, reader.pending), state.mode.got;
      LengthsFit(state);
      BuildTrees(got);
      state := r.state;
      if mode.BAD? {
        BadHalts(state, reader.pending);
        ShowBad();
      } else {
        ShowLen();
      }
    }

    /** Builds the tables for the code lengths, unless they make no codes that are accepted; the space is enough. */
    method BuildTrees(ghost got: seq<nat>)
      requires Sizes() && 257 <= nlen <= 286 && 1 <= ndist <= 30 && |got| == nlen + ndist
                && lens[..nlen + ndist] == got && AllLess(got, 16)
      modifies `mode, `lencode, `distcode, codes, work
      ensures TreesMode(got[..nlen], got[nlen..]).Len? || TreesMode(got[..nlen], got[nlen..]).Bad?
      ensures if TreesMode(got[..nlen], got[nlen..]).Len? then mode.LEN?
                && HasTables(lencode, distcode, TreesMode(got[..nlen], got[nlen..]).t)
              else mode.BAD?
    {
      hide DecodingTable.Decodes, Rooted, Accepted, TableSize, RootBits;
      mode := BAD;
      if lens[256] == 0 {
        return;
      }
      assert lens[..nlen] == got[..nlen] && lens[nlen..nlen + ndist] == got[nlen..];
      BothFit(got[..nlen], got[nlen..]);
      var ret, end, lenbits := InfTrees.InflateTable(Lens, lens[..nlen], codes, 0, 10, work);
      if ret != 0 {
        return;
      }
      ghost var built := codes[..end];
      var end', distbits;
      ret, end', distbits := InfTrees.InflateTable(Dists, lens[nlen..nlen + ndist], codes, end, 9, work);
      if ret != 0 {
        return;
      }
      assert codes[..end] == built;
      lencode, distcode := Decoder(codes[..end], lenbits), Decoder(codes[end..end'], distbits);
      mode := LEN;
    }
  }

  lemma LenExtIs(s: State, p: seq<bool>)
    requires s.Valid() && s.mode.LenExt?
    ensures Step(s, p) == LenExtStep(s, p)
  {
  }

  lemma DistExtIs(s: State, p: seq<bool>)
    requires s.Valid() && s.mode.DistExt?
    ensures Step(s, p) == DistExtStep(s, p)
  {
  }

  lemma LenIs(s: State, p: seq<bool>)
    requires s.Valid() && s.mode.Len?
    ensures Step(s, p) == LenStep(s, p) && CodeValid(Lens, s.mode.t.llens) && |s.mode.t.llens| <= MaxSymbols(Lens)
    ensures Decode(Lens, s.mode.t.llens, p).Decoded? ==> Decode(Lens, s.mode.t.llens, p).length >= 1
  {
    hide Decode;
    if Decode(Lens, s.mode.t.llens, p).Decoded? {
      var sym := DecodedSymbol(Lens, s.mode.t.llens, p);
    }
  }

  lemma DistIs(s: State, p: seq<bool>)
    requires s.Valid() && s.mode.Dist?
    ensures Step(s, p) == DistStep(s, p) && CodeValid(Dists, s.mode.t.dlens) && |s.mode.t.dlens| <= MaxSymbols(Dists)
    ensures Decode(Dists, s.mode.t.dlens, p).Decoded? ==> Decode(Dists, s.mode.t.dlens, p).length >= 1
  {
    hide Decode;
    if Decode(Dists, s.mode.t.dlens, p).Decoded? {
      var sym := DecodedSymbol(Dists, s.mode.t.dlens, p);
    }
  }

  lemma TypeIs(s: State, p: seq<bool>)
    requires s.Valid() && s.mode.Type?
    ensures Step(s, p) == TypeStep(s, p)
  {
  }

  lemma OneBit(p: seq<bool>)
    requires |p| > 0
    ensures FromBits(p[..1]) == 1 <==> p[0]
  {
    assert p[..1][1..] == [];
  }

  lemma FixedSizes()
    ensures var f := BlockSymbols.FixedLengths();
      RootBits(f, 9) == 9 && TableSize(f, 9) == 512 && ValidLengths(f)
    ensures var d := FixedTrees().dlens;
      RootBits(d, 5) == 5 && TableSize(d, 5) == 32 && ValidLengths(d)
  {
    var f, d := BlockSymbols.FixedLengths(), FixedTrees().dlens;
    hide Pow2, Count, TableSize, RootBits;
    forall l: nat
      ensures Total(f, l) == FixedCount(l, 288) && Total(d, l) == if l == 5 then 32 else 0
    {
      CountFixed(l, 288);
      CountEqual(d, 5, l, 32);
    }
    assert Longest(f) == 9;
    assert Longest(d) == 5;
    TableSpace.ShortTable(f, 9);
    TableSpace.ShortTable(d, 5);
    BlockSymbols.SmallPowers();
  }

  lemma TableIs(s: State, p: seq<bool>)
    requires s.Valid() && s.mode.Table?
    ensures Step(s, p) == TableStep(s, p)
    ensures |p| >= 14 ==> FromBits(p[..5]) < 32 && FromBits(p[5..10]) < 32 && FromBits(p[10..14]) < 16
  {
    BlockSymbols.SmallPowers();
  }

  lemma StoredIs(s: State, p: seq<bool>)
    requires s.Valid() && s.mode.Stored?
    ensures Step(s, p) == StoredStep(s, p)
  {
  }

  lemma StoredFull(s: State, p: seq<bool>)
    requires s.Valid() && s.mode.Stored? && |p| == 32
    ensures var len, complement := FromBits(p[..16]), FromBits(p[16..]);
            Step(s, p) == if len + complement == 0xffff then Next(s.(mode := Copying(len)), 32)
                          else Next(s.(mode := Bad), 0)
  {
    hide FromBits, Step, State.Valid;
    StoredIs(s, p);
    assert p[16..32] == p[16..];
  }

  lemma BadHalts(s: State, p: seq<bool>)
    requires s.Valid() && s.mode.Bad?
    ensures Halted(Config(s, p))
  {
  }

  lemma CopyIs(s: State, p: seq<bool>)
    requires s.Valid() && s.mode.Copying?
    ensures Step(s, p) == CopyStep(s, p)
  {
  }

  lemma LitIs(s: State, p: seq<bool>)
    requires s.Valid() && s.mode.Lit?
    ensures s.mode.c < 256 && Step(s, p) == LitStep(s)
  {
  }

  lemma OutputBounds(out: seq<Byte>, prior: seq<Byte>, outer: seq<Byte>, output: array<Byte>, beg: nat, put: nat,
      limit: nat)
    requires OutputOk(out, prior, outer, output, beg, put, limit)
    ensures beg <= put <= limit <= output.Length && |out| == |prior| + put - beg
  {
  }

  lemma MatchIs(s: State, p: seq<bool>)
    requires s.Valid() && s.mode.Matching?
    ensures 1 <= s.mode.length <= MAX_LENGTH && 1 <= s.mode.offset <= MAX_DISTANCE && Step(s, p) == MatchStep(s)
  {
  }

  /** All earlier output is in the window, or as much as the longest distance. */
  lemma HistoryBounds(history: Window.History, prior: seq<Byte>)
    requires HistoryOk(history, prior)
    ensures history.Valid() && history.whave == Min(WINDOW_SIZE, |prior|)
  {
  }

  /** A byte from before this call's output. */
  lemma EarlierByte(out: seq<Byte>, prior: seq<Byte>, outer: seq<Byte>, output: array<Byte>, beg: nat, put: nat,
      limit: nat, back: nat)
    requires OutputOk(out, prior, outer, output, beg, put, limit) && put - beg < back <= |out|
    ensures |out| - back < |prior| && out[|out| - back] == prior[|out| - back]
  {
  }

  /** A byte of this call's output. */
  lemma LaterByte(out: seq<Byte>, prior: seq<Byte>, outer: seq<Byte>, output: array<Byte>, beg: nat, put: nat,
      limit: nat, back: nat)
    requires OutputOk(out, prior, outer, output, beg, put, limit) && 1 <= back <= put - beg
    ensures put <= output.Length && |out| - back >= 0 && out[|out| - back] == output[put - back]
  {
  }

  /** Stores one byte behind the output. */
  method StoreByte(output: array<Byte>, put: nat, b: Byte, ghost out: seq<Byte>, ghost prior: seq<Byte>,
      ghost outer: seq<Byte>, ghost beg: nat, ghost limit: nat)
    requires OutputOk(out, prior, outer, output, beg, put, limit) && put < limit
    modifies output
    ensures OutputOk(out + [b], prior, outer, output, beg, put + 1, limit)
  {
    output[put] := b;
    assert output[beg..put + 1] == old(output[beg..put]) + [b];
  }

  /** The tables for the lengths of a block fit the space that is set aside. */
  lemma BothFit(llens: seq<nat>, dlens: seq<nat>)
    requires |llens| <= 286 && |dlens| <= 30 && AllLess(llens, 16) && AllLess(dlens, 16)
    ensures Accepted(Lens, llens) ==> !TooLarge(Lens, TableSize(llens, RootBits(llens, 10)))
    ensures Accepted(Dists, dlens) ==> !TooLarge(Dists, TableSize(dlens, RootBits(dlens, 9)))
  {
    hide Accepted, TableSize, RootBits;
    if Accepted(Lens, llens) {
      TableSpace.LensFit(llens);
    }
    if Accepted(Dists, dlens) {
      TableSpace.DistsFit(dlens);
    }
  }

  lemma CodesRoom(clens: seq<nat>)
    requires AllLess(clens, 8)
    ensures TableSize(clens, RootBits(clens, 7)) <= 128 && ValidLengths(clens)
  {
    ShortCodes(clens);
    BlockSymbols.SmallPowers();
    TableSpace.ShortTable(clens, 7);
    Pow2Monotone(RootBits(clens, 7), 7);
  }

  lemma CodeLensIs(s: State, p: seq<bool>)
    requires s.Valid() && s.mode.CodeLens?
    ensures Step(s, p) == CodeLensStep(s, p) && |s.mode.clens| == 19 <= MaxSymbols(Codes)
              && CodeValid(Codes, s.mode.clens)
  {
  }

  /** A symbol below 16 is a length. */
  lemma OneLengthStep(s: State, p: seq<bool>)
    requires s.Valid() && s.mode.CodeLens? && |s.mode.clens| <= MaxSymbols(Codes)
              && |s.mode.got| < s.mode.nlen + s.mode.ndist
    requires Decode(Codes, s.mode.clens, p).Decoded? && Decode(Codes, s.mode.clens, p).val < 16
    ensures var d, m := Decode(Codes, s.mode.clens, p), s.mode;
      CodeLensStep(s, p) == Next(s.(mode := CodeLens(m.nlen, m.ndist, m.clens, m.got + [d.val])), d.length)
          && d.length <= |p|
  {
    hide Decode, CodeValid, FromBits;
    var sym := DecodedSymbol(Codes, s.mode.clens, p);
  }

  /** The mode after a repetition. */
  function RepeatMode(m: Mode, len: nat, copy: nat): Mode
    requires m.CodeLens?
  {
    if |m.got| + copy > m.nlen + m.ndist then Bad else CodeLens(m.nlen, m.ndist, m.clens,
        m.got + RunLengths.Repeat(len, copy))
  }

  /** A symbol from 16 on is a repetition, if its extra bits are there. */
  lemma RepeatStep(s: State, p: seq<bool>, d: Decoded, bits: nat)
    requires s.Valid() && s.mode.CodeLens? && |s.mode.clens| <= MaxSymbols(Codes)
              && |s.mode.got| < s.mode.nlen + s.mode.ndist
    requires d == Decode(Codes, s.mode.clens, p) && d.Decoded? && d.val >= 16 && bits == ExtraBits(d.val)
              && d.length + bits <= |p|
    ensures d.val == 16 && s.mode.got == [] ==> CodeLensStep(s, p) == Next(s.(mode := Bad), d.length)
    ensures !(d.val == 16 && s.mode.got == []) ==>
      CodeLensStep(s, p) ==
      Next(s.(mode := RepeatMode(s.mode, if d.val == 16 then s.mode.got[|s.mode.got| - 1] else 0,
                                 (if d.val == 18 then 11 else 3) + FromBits(p[d.length..d.length + bits]))),
                                     d.length + bits)
  {
    hide Decode, CodeValid, FromBits;
    var sym := DecodedSymbol(Codes, s.mode.clens, p);
  }

  lemma DecodeStill(clens: seq<nat>, p: seq<bool>, p': seq<bool>)
    requires CodeValid(Codes, clens) && |clens| <= MaxSymbols(Codes) && Decode(Codes, clens, p).Decoded? && p <= p'
    ensures Decode(Codes, clens, p') == Decode(Codes, clens, p)
  {
    hide Decode, CodeValid;
    assert p' == p + p'[|p|..];
    DecodeMore(Codes, clens, p, p'[|p|..]);
  }

  lemma LengthsFit(s: State)
    requires s.Valid() && s.mode.CodeLens?
    ensures 257 <= s.mode.nlen <= 286 && 1 <= s.mode.ndist <= 30 && AllLess(s.mode.got, 16)
  {
  }

  /** Stores bytes behind the output (zmemcpy). */
  method StoreBytes(output: array<Byte>, put: nat, data: seq<Byte>, ghost out: seq<Byte>, ghost prior: seq<Byte>,
      ghost outer: seq<Byte>,
                    ghost beg: nat, ghost limit: nat)
    requires OutputOk(out, prior, outer, output, beg, put, limit) && put + |data| <= limit
    modifies output
    ensures OutputOk(out + data, prior, outer, output, beg, put + |data|, limit)
  {
    ghost var before := output[..];
    forall i | 0 <= i < |data| {
      output[put + i] := data[i];
    }
    assert output[..] == before[..put] + data + before[put + |data|..];
    OutputMore(out, prior, outer, before, output[..], beg, put, data);
    SlicesOf(output, beg, put + |data|);
  }

  lemma OutputMore(out: seq<Byte>, prior: seq<Byte>, outer: seq<Byte>, before: seq<Byte>, after: seq<Byte>, beg: nat,
      put: nat, data: seq<Byte>)
    requires beg <= put && put + |data| <= |before| == |outer|
    requires out == prior + before[beg..put] && before[..beg] == outer[..beg] && before[put..] == outer[put..]
    requires after == before[..put] + data + before[put + |data|..]
    ensures out + data == prior + after[beg..put + |data|] && after[..beg] == outer[..beg]
              && after[put + |data|..] == outer[put + |data|..]
  {
    assert after[beg..put + |data|] == before[beg..put] + data;
    assert after[put + |data|..] == before[put + |data|..] == before[put..][|data|..];
    assert outer[put + |data|..] == outer[put..][|data|..];
  }

  lemma SlicesOf(a: array<Byte>, i: nat, j: nat)
    requires i <= j <= a.Length
    ensures a[i..j] == a[..][i..j] && a[..i] == a[..][..i] && a[j..] == a[..][j..]
  {
  }
}
