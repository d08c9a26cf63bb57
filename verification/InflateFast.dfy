/** Decoding many symbols without checking for the ends of the buffers (zlib's inffast.c). */
module InflateFast {
  import opened Arithmetic
  import opened BitReader
  import opened Bits
  import opened CodeLookup
  import opened DecodingTable
  import opened HuffmanCode
  import opened Inflater
  import opened Inflation
  import opened Lz77
  import Window

  const MIN_INPUT: nat := 6
  const MIN_OUTPUT: nat := 258

  /** The local copies of the input position and the bit buffer. */
  datatype Regs = Regs(inp: nat, hold: nat, bits: nat)

  /** From the configuration at entry the bits read so far have led to `c`. */
  ghost predicate At(src: seq<Byte>, entry: Config, r: Regs, c: Config) {
    && r.inp <= |src| && r.bits == |c.p| && r.hold == FromBits(c.p) && c.s.Valid()
    && Leads(Config(entry.s, entry.p + BytesToBits(src[..r.inp])), c)
  }

  method Pull(src: seq<Byte>, r: Regs, ghost entry: Config, ghost c: Config) returns (r': Regs, ghost c': Config)
    requires At(src, entry, r, c) && r.inp < |src|
    ensures At(src, entry, r', c') && r'.inp == r.inp + 1 && r'.bits == r.bits + 8 && c'.s == c.s && c.p <= c'.p
  {
    hide Leads, FromBits, ToBits, BytesToBits, State.Valid, Pow2;
    var b := src[r.inp];
    r' := Regs(r.inp + 1, r.hold + b * Pow2(r.bits), r.bits + 8);
    c' := Config(c.s, c.p + ToBits(b, 8));
    LeadsMore(Config(entry.s, entry.p + BytesToBits(src[..r.inp])), c, ToBits(b, 8));
    assert src[..r.inp + 1] == src[..r.inp] + [b];
    BytesToBitsAppend(src[..r.inp], b);
    assert entry.p + BytesToBits(src[..r.inp]) + ToBits(b, 8) == entry.p + BytesToBits(src[..r.inp + 1]);
    FromBitsAppend(c.p, ToBits(b, 8));
    ByteBits(b);
  }

  /** At least 15 bits, with two more bytes if there are fewer. */
  method PullTwo(src: seq<Byte>, r: Regs, ghost entry: Config, ghost c: Config) returns (r': Regs, ghost c': Config)
    requires At(src, entry, r, c) && r.inp + 2 <= |src|
    ensures At(src, entry, r', c') && c'.s == c.s && c.p <= c'.p
    ensures r'.inp == (if r.bits < 15 then r.inp + 2 else r.inp) && r'.bits == r.bits + 8 * (r'.inp - r.inp)
  {
    hide At;
    r', c' := r, c;
    if r.bits < 15 {
      assert r.inp < |src|;
      r', c' := Pull(src, r', entry, c');
      r', c' := Pull(src, r', entry, c');
    }
  }

  function Dropped(r: Regs, n: nat): Regs
    requires n <= r.bits
  {
    DivMod(r.hold, Pow2(n));
    Regs(r.inp, r.hold / Pow2(n), r.bits - n)
  }

  /** Looks a code up, with one link at most; there are enough bits for any code. */
  method FastCode(d: Decoder, t: CodeType, r: Regs, ghost lens: seq<nat>, ghost p: seq<bool>)
    returns (r': Regs, here: Code, ghost n: nat)
    requires Built(d, t, lens) && MAXBITS <= r.bits <= |p| && r.hold == FromBits(p)
    ensures |lens| <= MaxSymbols(t) && 1 <= n <= MAXBITS && r' == Dropped(r, n)
              && Decode(t, lens, p) == Decoded(here.op, here.val, n)
  {
    hide FromBits, Pow2, Decode, Built, IsLink, SubIndex, Longest;
    BuiltBounds(d, t, lens);
    RootEntry(d, t, lens, p);
    here := d.table[r.hold % Pow2(d.bits)];
    var last := here;
    r' := Dropped(r, last.bits);
    n := last.bits;
    if IsLink(t, here) {
      LinkedEntry(d, t, lens, p, last);
      SubIndexShifted(last, r.hold);
      here := d.table[last.val + r'.hold % Pow2(last.op)];
      SplitBits(r.hold, last.bits, here.bits);
      r' := Dropped(r', here.bits);
      n := last.bits + here.bits;
    }
    var s := DecodedSymbol(t, lens, p);
  }

  lemma SubIndexShifted(last: Code, w: nat)
    ensures SubIndex(last, w) == last.val + (w / Pow2(last.bits)) % Pow2(last.op)
  {
    SplitBits(w, last.bits, last.op);
  }

  /** A step that uses the low bits. */
  lemma AtStep(src: seq<Byte>, entry: Config, r: Regs, c: Config)
    requires At(src, entry, r, c) && InBlock(c.s.mode) && Step(c.s, c.p).Next?
    ensures Step(c.s, c.p).used <= r.bits
    ensures At(src, entry, Dropped(r, Step(c.s, c.p).used), Config(Step(c.s, c.p).state, c.p[Step(c.s, c.p).used..]))
  {
    hide Leads, FromBits, Step, BytesToBits, State.Valid, Pow2;
    StepKeeps(c.s, c.p);
    LeadsStep(Config(entry.s, entry.p + BytesToBits(src[..r.inp])), c);
    FromBitsPrefix(c.p, Step(c.s, c.p).used);
  }

  lemma LenOps(lens: seq<nat>, p: seq<bool>)
    requires |lens| <= MaxSymbols(Lens) && Decode(Lens, lens, p).Decoded?
    ensures var d := Decode(Lens, lens, p);
      (d.op == 0 && d.val < 256) || d.op in {64, 72, 78, 96} || 16 <= d.op <= 21
  {
    hide Decode;
    var s := DecodedSymbol(Lens, lens, p);
    if 257 <= s < 286 && Begins(lens, s, p) {
      LengthEntry(s - 257);
    }
  }

  lemma DistOps(lens: seq<nat>, p: seq<bool>)
    requires |lens| <= MaxSymbols(Dists) && Decode(Dists, lens, p).Decoded?
    ensures Decode(Dists, lens, p).op == 64 || 16 <= Decode(Dists, lens, p).op <= 29
  {
    hide Decode;
    var s := DecodedSymbol(Dists, lens, p);
    if s < 30 && Begins(lens, s, p) {
      DistanceEntry(s);
    }
  }

  lemma DropNothing(r: Regs)
    ensures Dropped(r, 0) == r
  {
  }

  /** The extra bits of a length; a byte is read when there are too few bits. */
  method FastLenExt(src: seq<Byte>, r: Regs, length: nat, extra: nat, ghost entry: Config, ghost c: Config)
      returns (r': Regs, len: nat, ghost c': Config)
    requires At(src, entry, r, c) && c.s.mode.LenExt? && c.s.mode.length == length && c.s.mode.extra == extra
    requires r.bits < extra ==> r.inp < |src|
    ensures At(src, entry, r', c') && c'.s == c.s.(mode := Mode.Dist(c.s.mode.t, len)) && 3 <= len <= MAX_LENGTH
    ensures if r.bits < extra then r'.inp == r.inp + 1 && r'.bits == r.bits + 8 - extra && extra <= 5
            else r'.inp == r.inp && r'.bits == r.bits - extra
  {
    hide At, Pow2, FromBits, Trees.Valid;
    r', len, c' := r, length, c;
    AtValid(src, entry, r, c);
    if extra > 0 {
      if r'.bits < extra {
        r', c' := Pull(src, r', entry, c');
      }
    }
    AtValid(src, entry, r', c');
    LenExtIs(c'.s, c'.p);
    LowBitsAre(src, entry, r', c', extra);
    AtStep(src, entry, r', c');
    c' := Config(Step(c'.s, c'.p).state, c'.p[extra..]);
    if extra > 0 {
      len := len + r'.hold % Pow2(extra);
      r' := Dropped(r', extra);
    } else {
      DropNothing(r');
    }
    AtValid(src, entry, r', c');
  }

  lemma AtValid(src: seq<Byte>, entry: Config, r: Regs, c: Config)
    requires At(src, entry, r, c)
    ensures c.s.Valid() && r.bits == |c.p| && r.hold == FromBits(c.p) && r.inp <= |src|
  {
  }

  lemma LowBitsAre(src: seq<Byte>, entry: Config, r: Regs, c: Config, n: nat)
    requires At(src, entry, r, c) && n <= r.bits
    ensures r.hold % Pow2(n) == FromBits(c.p[..n]) && (n == 0 ==> FromBits(c.p[..n]) == 0)
  {
    FromBitsPrefix(c.p, n);
  }

  /** The extra bits of a distance; up to two bytes are read when there are too few bits. */
  method FastDistExt(src: seq<Byte>, r: Regs, offset: nat, extra: nat, ghost entry: Config, ghost c: Config)
      returns (r': Regs, dist: nat, ghost c': Config)
    requires At(src, entry, r, c) && c.s.mode.DistExt? && c.s.mode.offset == offset && c.s.mode.extra == extra
    requires r.bits < extra ==> r.inp < |src| && (r.bits + 8 < extra ==> r.inp + 1 < |src|)
    ensures At(src, entry, r', c') && c'.s == c.s.(mode := Matching(c.s.mode.t, c.s.mode.length, dist))
              && 1 <= dist <= MAX_DISTANCE
    ensures r'.inp == r.inp + (if r.bits >= extra then 0 else if r.bits + 8 >= extra then 1 else 2)
    ensures r'.bits == r.bits + 8 * (r'.inp - r.inp) - extra && extra <= 13
  {
    hide At, Pow2, FromBits, Trees.Valid;
    r', c' := r, c;
    AtValid(src, entry, r, c);
    if r'.bits < extra {
      r', c' := Pull(src, r', entry, c');
      if r'.bits < extra {
        r', c' := Pull(src, r', entry, c');
      }
    }
    AtValid(src, entry, r', c');
    DistExtIs(c'.s, c'.p);
    LowBitsAre(src, entry, r', c', extra);
    AtStep(src, entry, r', c');
    c' := Config(Step(c'.s, c'.p).state, c'.p[extra..]);
    dist := offset + r'.hold % Pow2(extra);
    r' := Dropped(r', extra);
    AtValid(src, entry, r', c');
  }

  /** A distance code, after at least 15 bits have been made ready. */
  method FastDist(src: seq<Byte>, distcode: Decoder, r: Regs, ghost entry: Config, ghost c: Config)
      returns (r': Regs, here: Code, ghost c': Config, ghost n: nat)
    requires At(src, entry, r, c) && c.s.mode.Dist? && Built(distcode, Dists, c.s.mode.t.dlens) && r.bits >= MAXBITS
    ensures At(src, entry, r', c') && c'.s == c.s.(mode := DistMode(c.s.mode.t, c.s.mode.length, here.op, here.val))
    ensures r'.inp == r.inp && r'.bits == r.bits - n && 1 <= n <= MAXBITS && (here.op == 64 || 16 <= here.op <= 29)
  {
    hide At, Pow2, FromBits, Decode, Built, DistMode;
    AtValid(src, entry, r, c);
    r', here, n := FastCode(distcode, Dists, r, c.s.mode.t.dlens, c.p);
    DistIs(c.s, c.p);
    DistOps(c.s.mode.t.dlens, c.p);
    AtStep(src, entry, r, c);
    c' := Config(Step(c.s, c.p).state, c.p[n..]);
    AtValid(src, entry, r', c');
  }

  /** The rest of a length and its distance. */
  method FastPair(src: seq<Byte>, distcode: Decoder, r: Regs, length: nat, extra: nat, ghost entry: Config,
      ghost c: Config)
      returns (r': Regs, ok: bool, len: nat, dist: nat, ghost c': Config)
    requires At(src, entry, r, c) && c.s.mode.LenExt? && c.s.mode.length == length && c.s.mode.extra == extra
    requires Built(distcode, Dists, c.s.mode.t.dlens) && r.inp + (if r.bits >= 1 then 4 else 5) <= |src|
    ensures At(src, entry, r', c') && c'.s.last == c.s.last && c'.s.out == c.s.out
    ensures r.inp <= r'.inp <= r.inp + (if r.bits >= 1 then 4 else 5) && r'.bits < r.bits + 8 * (r'.inp - r.inp)
    ensures r'.bits <= Max(30, r.bits)
    ensures if ok then c'.s.mode == Matching(c.s.mode.t, len, dist) && 3 <= len <= MAX_LENGTH
              && 1 <= dist <= MAX_DISTANCE
            else c'.s.mode == Bad
  {
    hide At, Pow2, FromBits, Decode, Built;
    var here;
    ghost var n;
    dist := 0;
    r', len, c' := FastLenExt(src, r, length, extra, entry, c);
    r', c' := PullTwo(src, r', entry, c');
    r', here, c', n := FastDist(src, distcode, r', entry, c');
    ok := (here.op / 16) % 2 == 1;
    if ok {
      r', dist, c' := FastDistExt(src, r', here.val, here.op % 16, entry, c');
    }
  }

  // ---------- copying ----------

  lemma {:induction false} CopyJoin(out: seq<Byte>, dist: nat, j: nat, k: nat)
    requires 1 <= dist <= |out|
    ensures Copy(Copy(out, dist, j), dist, k) == Copy(out, dist, j + k)
  {
    if k > 0 {
      CopyJoin(out, dist, j, k - 1);
    }
  }

  /** Bytes from the window lie where `from` says, without a wrap-around; the others are in the output. */
  ghost predicate Source(history: Window.History, prior: seq<Byte>, win: bool, from: nat, back: int, n: nat)
    reads history, history.window
  {
    HistoryOk(history, prior) &&
    if win then 1 <= back <= history.whave && from == history.IndexOf(back) && n <= history.RunOf(back) else back <= 0
  }

  lemma SourceByte(history: Window.History, prior: seq<Byte>, win: bool, from: nat, back: int, n: nat, k: nat)
    requires Source(history, prior, win, from, back, n) && k < n
    ensures win ==>
              back - k >= 1 && back <= |prior| && from + k < history.window.Length
              && history.window[from + k] == prior[|prior| - back + k]
  {
    if win {
      history.BackFromEnd(back, k);
    }
  }

  /** Behind a part of a source without a wrap-around the source goes on. */
  lemma SourceRest(history: Window.History, prior: seq<Byte>, win: bool, from: nat, back: int, n: nat, k: nat)
    requires Source(history, prior, win, from, back, n) && k < n
    ensures Source(history, prior, win, from + k, back - k, n - k)
  {
  }

  /** Copies `n` bytes, one after the other. */
  method CopyPiece(history: Window.History, output: array<Byte>, win: bool, from: nat, at: nat, dist: nat, n: nat,
                   ghost out: seq<Byte>, ghost prior: seq<Byte>, ghost outer: seq<Byte>, ghost beg: nat,
                       ghost limit: nat)
    requires OutputOk(out, prior, outer, output, beg, at, limit) && output != history.window && at + n <= limit
    requires Source(history, prior, win, from, dist - (at - beg), n) && 1 <= dist <= |out|
    modifies output
    ensures OutputOk(Copy(out, dist, n), prior, outer, output, beg, at + n, limit)
  {
    hide OutputOk, Source, HistoryOk;
    var i := 0;
    while i < n
      invariant 0 <= i <= n && OutputOk(Copy(out, dist, i), prior, outer, output, beg, at + i, limit)
      invariant Source(history, prior, win, from, dist - (at - beg), n)
    {
      ghost var r := Copy(out, dist, i);
      SourceByte(history, prior, win, from, dist - (at - beg), n, i);
      OutputBounds(r, prior, outer, output, beg, at + i, limit);
      if win {
        EarlierByte(r, prior, outer, output, beg, at + i, limit, dist);
        StoreByte(output, at + i, history.window[from + i], r, prior, outer, beg, limit);
      } else {
        BackInOutput(history, prior, from, dist - (at - beg), n);
        LaterByte(r, prior, outer, output, beg, at + i, limit, dist);
        StoreByte(output, at + i, output[at + i - dist], r, prior, outer, beg, limit);
      }
      i := i + 1;
    }
  }

  lemma BackInOutput(history: Window.History, prior: seq<Byte>, from: nat, back: int, n: nat)
    requires Source(history, prior, false, from, back, n)
    ensures back <= 0
  {
  }

  /** Copies the last bytes of a match, three at a time. */
  method CopyByThrees(history: Window.History, output: array<Byte>, win: bool, from: nat, at: nat, dist: nat, n: nat,
                      ghost out: seq<Byte>, ghost prior: seq<Byte>, ghost outer: seq<Byte>, ghost beg: nat,
                          ghost limit: nat)
    requires OutputOk(out, prior, outer, output, beg, at, limit) && output != history.window && at + n <= limit
    requires Source(history, prior, win, from, dist - (at - beg), n) && 1 <= dist <= |out|
    modifies output
    ensures OutputOk(Copy(out, dist, n), prior, outer, output, beg, at + n, limit)
  {
    hide OutputOk, Source, HistoryOk;
    var k := 0;
    while n - k > 2
      invariant 0 <= k <= n && OutputOk(Copy(out, dist, k), prior, outer, output, beg, at + k, limit)
      invariant Source(history, prior, win, from, dist - (at - beg), n)
    {
      CopyPart(history, output, win, from, at, dist, n, k, 3, out, prior, outer, beg, limit);
      k := k + 3;
    }
    if n - k > 0 {
      var rest := n - k;
      CopyPart(history, output, win, from, at, dist, n, k, 1, out, prior, outer, beg, limit);
      if rest > 1 {
        CopyPart(history, output, win, from, at, dist, n, k + 1, 1, out, prior, outer, beg, limit);
      }
    }
  }

  /** Copies `m` bytes behind the first `k`. */
  method CopyPart(history: Window.History, output: array<Byte>, win: bool, from: nat, at: nat, dist: nat, n: nat,
      k: nat, m: nat,
                  ghost out: seq<Byte>, ghost prior: seq<Byte>, ghost outer: seq<Byte>, ghost beg: nat,
                      ghost limit: nat)
    requires 1 <= dist <= |out| && k < n && k + m <= n && at + n <= limit && output != history.window
    requires OutputOk(Copy(out, dist, k), prior, outer, output, beg, at + k, limit)
    requires Source(history, prior, win, from, dist - (at - beg), n)
    modifies output
    ensures OutputOk(Copy(out, dist, k + m), prior, outer, output, beg, at + k + m, limit)
    ensures Source(history, prior, win, from, dist - (at - beg), n)
  {
    hide OutputOk, HistoryOk, Source;
    SourceRest(history, prior, win, from, dist - (at - beg), n, k);
    SourceLess(history, prior, win, from + k, dist - (at + k - beg), n - k, m);
    CopyPiece(history, output, win, from + k, at + k, dist, m, Copy(out, dist, k), prior, outer, beg, limit);
    CopyJoin(out, dist, k, m);
  }

  lemma SourceLess(history: Window.History, prior: seq<Byte>, win: bool, from: nat, back: int, n: nat, m: nat)
    requires Source(history, prior, win, from, back, n) && m <= n
    ensures Source(history, prior, win, from, back, m)
  {
  }

  /** Copies a match whose distance reaches back into the window: first from there, then from the output. */
  method CopyFromWindow(history: Window.History, output: array<Byte>, beg: nat, put: nat, dist: nat, len: nat, op: nat,
                        ghost out: seq<Byte>, ghost prior: seq<Byte>, ghost outer: seq<Byte>, ghost limit: nat)
    requires OutputOk(out, prior, outer, output, beg, put, limit) && output != history.window && put + len <= limit
              && HistoryOk(history, prior)
    requires op == dist - (put - beg) && 1 <= op <= history.whave && 1 <= dist <= |out| && beg <= put
    modifies output
    ensures OutputOk(Copy(out, dist, len), prior, outer, output, beg, put + len, limit)
  {
    hide OutputOk, Source, HistoryOk;
    var from, n := FirstPart(history, op, prior);
    if n < len {
      CopyPiece(history, output, true, from, put, dist, n, out, prior, outer, beg, limit);
      CopyBehind(history, output, beg, put + n, dist, len - n, op - n, Copy(out, dist, n), prior, outer, limit);
      CopyJoin(out, dist, n, len - n);
    } else {
      SourceLess(history, prior, true, from, op, n, len);
      CopyByThrees(history, output, true, from, put, dist, len, out, prior, outer, beg, limit);
    }
  }

  /** Where the window has the bytes `op` back, and how many of them before it wraps around. */
  method FirstPart(history: Window.History, op: nat, ghost prior: seq<Byte>) returns (from: nat, n: nat)
    requires HistoryOk(history, prior) && 1 <= op <= history.whave
    ensures n <= op && Source(history, prior, true, from, op, n)
    ensures n < op ==> op - n == history.wnext && Source(history, prior, true, 0, op - n, op - n)
  {
    hide Source, HistoryOk;
    FirstSource(history, prior, op);
    n := op;
    if history.wnext == 0 {
      from := history.wsize - op;
    } else if history.wnext < op {
      from := history.wsize + history.wnext - op;
      n := op - history.wnext;
    } else {
      from := history.wnext - op;
    }
  }

  lemma FirstSource(history: Window.History, prior: seq<Byte>, op: nat)
    requires HistoryOk(history, prior) && 1 <= op <= history.whave
    ensures history.wnext == 0 ==> history.wsize >= op && Source(history, prior, true, history.wsize - op, op, op)
    ensures 0 < history.wnext < op ==>
      history.wsize + history.wnext >= op && Source(history, prior, true, history.wsize + history.wnext - op, op,
          op - history.wnext)
    ensures history.wnext >= op ==> Source(history, prior, true, history.wnext - op, op, op)
    ensures 0 < history.wnext < op ==> Source(history, prior, true, 0, history.wnext, history.wnext)
    ensures Source(history, prior, false, 0, 0, 0)
  {
  }

  lemma NoSource(history: Window.History, prior: seq<Byte>, back: int, n: nat)
    requires HistoryOk(history, prior) && back <= 0
    ensures Source(history, prior, false, 0, back, n)
  {
  }

  /** What follows the first part of a match from the window: perhaps its wrapped-around part, and then the output. */
  method CopyBehind(history: Window.History, output: array<Byte>, beg: nat, at: nat, dist: nat, rest: nat, left: nat,
                    ghost out: seq<Byte>, ghost prior: seq<Byte>, ghost outer: seq<Byte>, ghost limit: nat)
    requires OutputOk(out, prior, outer, output, beg, at, limit) && output != history.window && at + rest <= limit
              && HistoryOk(history, prior)
    requires 1 <= dist <= |out| && left == dist - (at - beg) && beg <= at
    requires left > 0 ==> left == history.wnext && Source(history, prior, true, 0, left, left)
    modifies output
    ensures OutputOk(Copy(out, dist, rest), prior, outer, output, beg, at + rest, limit)
  {
    hide OutputOk, Source, HistoryOk;
    if left > 0 {
      if history.wnext < rest {
        var n := history.wnext;
        CopyPiece(history, output, true, 0, at, dist, n, out, prior, outer, beg, limit);
        NoSource(history, prior, dist - (at + n - beg), rest - n);
        CopyByThrees(history, output, false, 0, at + n, dist, rest - n, Copy(out, dist, n), prior, outer, beg, limit);
        CopyJoin(out, dist, n, rest - n);
      } else {
        SourceLess(history, prior, true, 0, left, left, rest);
        CopyByThrees(history, output, true, 0, at, dist, rest, out, prior, outer, beg, limit);
      }
    } else {
      NoSource(history, prior, left, rest);
      CopyByThrees(history, output, false, 0, at, dist, rest, out, prior, outer, beg, limit);
    }
  }

  // ---------- one symbol ----------

  lemma AtCopied(src: seq<Byte>, entry: Config, r: Regs, c: Config)
    requires At(src, entry, r, c) && c.s.mode.Matching? && c.s.mode.offset <= |c.s.out|
    ensures c.s.mode.offset >= 1
    ensures At(src, entry, r, Config(State(Len(c.s.mode.t), c.s.last, Copy(c.s.out, c.s.mode.offset, c.s.mode.length)),
              c.p))
  {
    hide Leads, FromBits, BytesToBits, Step;
    LeadsCopy(Config(entry.s, entry.p + BytesToBits(src[..r.inp])), c, c.s.mode.length);
  }

  lemma AtTooFar(src: seq<Byte>, entry: Config, r: Regs, c: Config)
    requires At(src, entry, r, c) && c.s.mode.Matching? && c.s.mode.offset > |c.s.out|
    ensures At(src, entry, r, Config(State(Bad, c.s.last, c.s.out), c.p))
  {
    hide At, Step, State.Valid;
    AtValid(src, entry, r, c);
    MatchIs(c.s, c.p);
    AtStep(src, entry, r, c);
    DropNothing(r);
    assert c.p[0..] == c.p;
  }

  lemma AtLiteral(src: seq<Byte>, entry: Config, r: Regs, c: Config)
    requires At(src, entry, r, c) && c.s.mode.Lit?
    ensures c.s.mode.c < 256 && At(src, entry, r, Config(State(Len(c.s.mode.t), c.s.last, c.s.out + [c.s.mode.c]), c.p))
  {
    hide At, Step, State.Valid;
    AtValid(src, entry, r, c);
    LitIs(c.s, c.p);
    AtStep(src, entry, r, c);
    DropNothing(r);
    assert c.p[0..] == c.p;
  }

  /** Copies a match from the window, the output, or both; or finds that it reaches back too far. */
  method FastCopy(history: Window.History, output: array<Byte>, beg: nat, put: nat, len: nat, dist: nat, ghost r: Regs,
                  ghost src: seq<Byte>, ghost entry: Config, ghost c: Config, ghost prior: seq<Byte>,
                      ghost outer: seq<Byte>, ghost limit: nat)
      returns (ok: bool, put': nat, ghost c': Config)
    requires At(src, entry, r, c) && c.s.mode.Matching? && c.s.mode.length == len <= MAX_LENGTH
              && c.s.mode.offset == dist && 1 <= dist <= MAX_DISTANCE
    requires OutputOk(c.s.out, prior, outer, output, beg, put, limit) && put + MIN_OUTPUT <= limit
    requires HistoryOk(history, prior) && output != history.window
    modifies output
    ensures At(src, entry, r, c') && OutputOk(c'.s.out, prior, outer, output, beg, put', limit)
              && put <= put' <= put + MIN_OUTPUT
    ensures c'.s.last == c.s.last && c'.s.mode == if ok then Len(c.s.mode.t) else Bad
  {
    hide At, OutputOk, HistoryOk, Source;
    OutputBounds(c.s.out, prior, outer, output, beg, put, limit);
    HistoryBounds(history, prior);
    var op := put - beg;
    if dist > op && dist - op > history.whave {
      AtTooFar(src, entry, r, c);
      return false, put, Config(State(Bad, c.s.last, c.s.out), c.p);
    }
    AtCopied(src, entry, r, c);
    if dist > op {
      CopyFromWindow(history, output, beg, put, dist, len, dist - op, c.s.out, prior, outer, limit);
    } else {
      NoSource(history, prior, dist - op, len);
      CopyByThrees(history, output, false, 0, put, dist, len, c.s.out, prior, outer, beg, limit);
    }
    return true, put + len, Config(State(Len(c.s.mode.t), c.s.last, Copy(c.s.out, dist, len)), c.p);
  }

  /** A literal or length code, after at least 15 bits have been made ready. */
  method FastLen(src: seq<Byte>, lencode: Decoder, r: Regs, ghost entry: Config, ghost c: Config)
      returns (r': Regs, here: Code, ghost c': Config, ghost n: nat)
    requires At(src, entry, r, c) && c.s.mode.Len? && Built(lencode, Lens, c.s.mode.t.llens) && r.bits >= MAXBITS
    ensures At(src, entry, r', c') && c'.s == c.s.(mode := LenMode(c.s.mode.t, here.op, here.val))
    ensures r'.inp == r.inp && r'.bits == r.bits - n && 1 <= n <= MAXBITS
    ensures (here.op == 0 && here.val < 256) || here.op in {64, 72, 78, 96} || 16 <= here.op <= 21
  {
    hide At, Pow2, FromBits, Decode, Built, LenMode;
    AtValid(src, entry, r, c);
    r', here, n := FastCode(lencode, Lens, r, c.s.mode.t.llens, c.p);
    LenIs(c.s, c.p);
    LenOps(c.s.mode.t.llens, c.p);
    AtStep(src, entry, r, c);
    c' := Config(Step(c.s, c.p).state, c.p[n..]);
    AtValid(src, entry, r', c');
  }

  /** One literal, match, end of block or error: at most 6 bytes are read and 258 put out. */
  method FastSymbol(src: seq<Byte>, lencode: Decoder, distcode: Decoder, history: Window.History, output: array<Byte>,
      beg: nat, put: nat, r: Regs,
                    ghost entry: Config, ghost c: Config, ghost prior: seq<Byte>, ghost outer: seq<Byte>,
                        ghost limit: nat)
      returns (r': Regs, put': nat, mode: Phase, ghost c': Config)
    requires At(src, entry, r, c) && c.s.mode.Len? && HasTables(lencode, distcode, c.s.mode.t)
    requires OutputOk(c.s.out, prior, outer, output, beg, put, limit) && put + MIN_OUTPUT <= limit
              && r.inp + MIN_INPUT <= |src| && r.bits <= 32
    requires HistoryOk(history, prior) && output != history.window
    modifies output
    ensures At(src, entry, r', c') && OutputOk(c'.s.out, prior, outer, output, beg, put', limit)
              && c'.s.last == c.s.last
    ensures r.inp <= r'.inp <= r.inp + MIN_INPUT && put <= put' <= put + MIN_OUTPUT && r'.bits <= 32
    ensures r'.bits < r.bits + 8 * (r'.inp - r.inp)
    ensures (mode.LEN? && c'.s.mode == c.s.mode) || (mode.TYPE? && c'.s.mode.Type?) || (mode.BAD? && c'.s.mode.Bad?)
  {
    hide At, OutputOk, HistoryOk, Built;
    ghost var t, n := c.s.mode.t, 0;
    var here;
    put' := put;
    r', c' := PullTwo(src, r, entry, c);
    r', here, c', n := FastLen(src, lencode, r', entry, c');
    if here.op == 0 {
      AtLiteral(src, entry, r', c');
      StoreByte(output, put, here.val, c'.s.out, prior, outer, beg, limit);
      c' := Config(State(Len(t), c'.s.last, c'.s.out + [here.val]), c'.p);
      put', mode := put + 1, LEN;
    } else if (here.op / 16) % 2 == 1 {
      r', put', mode, c' := FastPairCopy(src, distcode, history, output, beg, put, r', here, entry, c', prior, outer,
          limit);
    } else if (here.op / 32) % 2 == 1 {
      mode := TYPE;
    } else {
      mode := BAD;
    }
  }

  /** A match. */
  method FastPairCopy(src: seq<Byte>, distcode: Decoder, history: Window.History, output: array<Byte>, beg: nat,
      put: nat, r: Regs, here: Code,
                      ghost entry: Config, ghost c: Config, ghost prior: seq<Byte>, ghost outer: seq<Byte>,
                          ghost limit: nat)
      returns (r': Regs, put': nat, mode: Phase, ghost c': Config)
    requires At(src, entry, r, c) && c.s.mode.LenExt? && Built(distcode, Dists, c.s.mode.t.dlens)
    requires c.s.mode.length == here.val && c.s.mode.extra == here.op % 16
    requires OutputOk(c.s.out, prior, outer, output, beg, put, limit) && put + MIN_OUTPUT <= limit
              && r.inp + (if r.bits >= 1 then 4 else 5) <= |src|
    requires HistoryOk(history, prior) && output != history.window
    modifies output
    ensures At(src, entry, r', c') && OutputOk(c'.s.out, prior, outer, output, beg, put', limit)
              && c'.s.last == c.s.last
    ensures r.inp <= r'.inp <= r.inp + (if r.bits >= 1 then 4 else 5) && put <= put' <= put + MIN_OUTPUT
              && r'.bits <= Max(30, r.bits)
    ensures r'.bits < r.bits + 8 * (r'.inp - r.inp)
    ensures (mode.LEN? && c'.s.mode == Len(c.s.mode.t)) || (mode.BAD? && c'.s.mode.Bad?)
  {
    hide At, OutputOk, HistoryOk, Built;
    var ok, len, dist;
    put', mode := put, BAD;
    r', ok, len, dist, c' := FastPair(src, distcode, r, here.val, here.op % 16, entry, c);
    if ok {
      ok, put', c' := FastCopy(history, output, beg, put, len, dist, r', src, entry, c', prior, outer, limit);
      mode := if ok then LEN else BAD;
    }
  }

  // ---------- the loop ----------

  lemma AtEntry(src: seq<Byte>, entry: Config, r: Regs)
    requires entry.s.Valid() && r.inp == 0 && r.bits == |entry.p| && r.hold == FromBits(entry.p)
    ensures At(src, entry, r, entry)
  {
    hide FromBits, Leads;
    assert src[..0] == [] && entry.p + BytesToBits([]) == entry.p;
    LeadsStart(entry);
  }

  /** Whole bytes that were read too early never reach back before the entry. */
  lemma NeverBeforeEntry(src: seq<Byte>, entry: Config, r: Regs, c: Config)
    requires At(src, entry, r, c) && InBlock(entry.s.mode) && |c.p| < |entry.p| + 8 * r.inp
    requires |entry.p| < 8 || Halted(entry)
    ensures r.bits / 8 <= r.inp
  {
    hide Leads, FromBits, BytesToBits, Step;
    if |entry.p| >= 8 {
      HaltedUses(entry, BytesToBits(src[..r.inp]), c);
    }
  }

  lemma AtGivenBack(src: seq<Byte>, entry: Config, r: Regs, c: Config, len: nat, r': Regs)
    requires len == r.bits / 8 <= r.inp && r' == Regs(r.inp - len, r.hold % Pow2(r'.bits), r.bits - 8 * len)
              && r'.bits <= |c.p|
    requires entry.s.Valid() && At(src, entry, r, c)
    ensures At(src, entry, r', Config(c.s, c.p[..r'.bits]))
  {
    hide Leads, FromBits, BytesToBits, Step, State.Valid, Pow2;
    var q := BytesToBits(src[r'.inp..r.inp]);
    assert src[..r.inp] == src[..r'.inp] + src[r'.inp..r.inp];
    BytesToBitsJoin(src[..r'.inp], src[r'.inp..r.inp]);
    var start := Config(entry.s, entry.p + BytesToBits(src[..r'.inp]));
    assert start.p + q == entry.p + BytesToBits(src[..r.inp]);
    LeadsLess(start, q, c);
    FromBitsPrefix(c.p, r'.bits);
    assert |c.p| - |q| == r'.bits;
  }

  lemma AtReached(fed: seq<Byte>, src: seq<Byte>, entry: Config, r: Regs, c: Config)
    requires Reached(fed, entry) && At(src, entry, r, c)
    ensures Reached(fed + src[..r.inp], c)
  {
    hide Leads, FromBits, BytesToBits, Reached;
    ReachedMore(fed, entry, src[..r.inp]);
    ReachedLeads(fed + src[..r.inp], Config(entry.s, entry.p + BytesToBits(src[..r.inp])), c);
  }

  /** Decodes symbols as long as there is enough input and room for any of them. */
  method FastLoop(src: seq<Byte>, lencode: Decoder, distcode: Decoder, history: Window.History, output: array<Byte>,
      beg: nat, put: nat, limit: nat,
                  r: Regs, ghost entry: Config, ghost prior: seq<Byte>, ghost outer: seq<Byte>)
      returns (r': Regs, put': nat, mode: Phase, ghost c: Config)
    requires At(src, entry, r, entry) && entry.s.mode.Len? && HasTables(lencode, distcode, entry.s.mode.t)
    requires OutputOk(entry.s.out, prior, outer, output, beg, put, limit) && limit - put >= MIN_OUTPUT
              && |src| >= MIN_INPUT && r.bits <= 32 && r.inp == 0
    requires HistoryOk(history, prior) && output != history.window
    modifies output
    ensures At(src, entry, r', c) && OutputOk(c.s.out, prior, outer, output, beg, put', limit)
              && c.s.last == entry.s.last
    ensures (mode.LEN? && c.s.mode == entry.s.mode) || (mode.TYPE? && c.s.mode.Type?) || (mode.BAD? && c.s.mode.Bad?)
    ensures r'.bits < r.bits + 8 * r'.inp && HistoryOk(history, prior)
  {
    hide At, OutputOk, HistoryOk, HasTables;
    var last, end := |src| - (MIN_INPUT - 1), limit - (MIN_OUTPUT - 1);
    r', put', mode, c := r, put, LEN, entry;
    while true
      invariant At(src, entry, r', c) && OutputOk(c.s.out, prior, outer, output, beg, put', limit)
                && c.s.last == entry.s.last
      invariant mode.LEN? && c.s.mode == entry.s.mode && r'.inp < last && put' < end
      invariant r'.bits <= 32 && r'.bits <= r.bits + 8 * r'.inp && HistoryOk(history, prior)
      decreases 8 * (|src| - r'.inp) + r'.bits
    {
      r', put', mode, c := FastSymbol(src, lencode, distcode, history, output, beg, put', r', entry, c, prior, outer,
          limit);
      AtValid(src, entry, r', c);
      if !(mode.LEN? && r'.inp < last && put' < end) {
        break;
      }
    }
  }

  /** Fast decoding: it ends where the slow form would have been, having read no more of the input. */
  method InflateFast(z: Inflater)
    requires z.Valid() && z.mode.LEN? && |z.reader.nextIn| >= MIN_INPUT && z.limit - z.put >= MIN_OUTPUT
    modifies z.reader, z`state, z`mode, z`put, z.output
    ensures z.Valid() && z.SameInput() && z.Progress() && z.reader.bits < 8
              && (z.mode.LEN? || z.mode.TYPE? || z.mode.BAD?)
  {
    hide At, OutputOk, HistoryOk, HasTables, Reached, FromBits, Inflater.Shows, Step, State.Valid, BytesToBits;
    z.AtLen();
    ghost var entry, fed, t := Config(z.state, z.reader.pending), z.reader.fed, z.state.mode.t;
    var src, r := z.reader.nextIn, Regs(0, z.reader.hold, z.reader.bits);
    AtEntry(src, entry, r);
    var put, mode;
    ghost var c;
    r, put, mode, c := FastLoop(src, z.lencode, z.distcode, z.history, z.output, z.beg, z.put, z.limit, r, entry,
        z.prior, z.outer);
    r, c := GiveBack(src, r, entry, c, fed);
    Restore(z, src, r, put, mode, c, t);
  }

  /** Gives back the whole bytes that were read too early. */
  method GiveBack(src: seq<Byte>, r: Regs, ghost entry: Config, ghost c: Config, ghost fed: seq<Byte>)
    returns (r': Regs, ghost c': Config)
    requires At(src, entry, r, c) && InBlock(entry.s.mode) && r.bits < |entry.p| + 8 * r.inp
    requires Reached(fed, entry) && (|entry.p| < 8 || Halted(entry))
    ensures r'.inp <= |src| && r'.bits == |c'.p| < 8 && r'.hold == FromBits(c'.p) && Reached(fed + src[..r'.inp], c')
              && c'.s == c.s
    ensures 8 * (|src| - r'.inp) + r'.bits == 8 * (|src| - r.inp) + r.bits
  {
    hide At, Reached, FromBits, Step, State.Valid, BytesToBits, Pow2;
    AtValid(src, entry, r, c);
    NeverBeforeEntry(src, entry, r, c);
    var len := r.bits / 8;
    r' := Regs(r.inp - len, r.hold % Pow2(r.bits - 8 * len), r.bits - 8 * len);
    AtGivenBack(src, entry, r, c, len, r');
    c' := Config(c.s, c.p[..r'.bits]);
    AtReached(fed, src, entry, r', c');
    AtValid(src, entry, r', c');
  }

  /** Copies the local variables back to the decoder. */
  method Restore(z: Inflater, src: seq<Byte>, r: Regs, put: nat, mode: Phase, ghost c: Config, ghost t: Trees)
    requires z.Sizes() && r.inp <= |src| && Reached(z.reader.fed + src[..r.inp], c)
              && HasTables(z.lencode, z.distcode, t)
    requires r.bits == |c.p| < 8 && r.hold == FromBits(c.p) && c.s.last == z.last
    requires OutputOk(c.s.out, z.prior, z.outer, z.output, z.beg, put, z.limit) && z.Apart(z.output)
              && HistoryOk(z.history, z.prior)
    requires z.history.Valid() && z.history.size == WINDOW_SIZE
    requires (mode.LEN? && c.s.mode == Len(t)) || (mode.TYPE? && c.s.mode.Type?) || (mode.BAD? && c.s.mode.Bad?)
    modifies z.reader, z`state, z`mode, z`put
    ensures z.Valid() && z.put == put && z.mode == mode
    ensures z.reader.fed == old(z.reader.fed) + src[..r.inp] && z.reader.nextIn == src[r.inp..]
              && z.reader.bits == r.bits
  {
    hide OutputOk, HistoryOk, HasTables, Reached, FromBits, Inflater.Shows, Inflater.Ready, Inflater.Input, Step,
         State.Valid, BytesToBits;
    Store(z, src, r, put, mode, c);
    ShowsAfter(z, t);
    z.ReadyAgain();
  }

  method Store(z: Inflater, src: seq<Byte>, r: Regs, put: nat, mode: Phase, ghost c: Config)
    requires r.inp <= |src|
    modifies z.reader, z`state, z`mode, z`put
    ensures z.reader.hold == r.hold && z.reader.bits == r.bits && z.reader.pending == c.p
              && z.reader.nextIn == src[r.inp..]
    ensures z.reader.fed == old(z.reader.fed) + src[..r.inp] && z.put == put && z.mode == mode && z.state == c.s
  {
    z.reader.hold, z.reader.bits, z.reader.nextIn, z.reader.fed, z.reader.pending :=
      r.hold, r.bits, src[r.inp..], z.reader.fed + src[..r.inp], c.p;
    z.put, z.mode, z.state := put, mode, c.s;
  }

  lemma ShowsAfter(z: Inflater, t: Trees)
    requires z.Sizes() && HasTables(z.lencode, z.distcode, t)
    requires (z.mode.LEN? && z.state.mode == Len(t)) || (z.mode.TYPE? && z.state.mode.Type?)
              || (z.mode.BAD? && z.state.mode.Bad?)
    ensures z.Shows()
  {
  }
}
