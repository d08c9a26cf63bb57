/** Fast decoding with wide input and copies by chunks (zlib's inffast_chunk.c, and state MATCH of inflate.c). */
module InflateChunk {
  import opened Arithmetic
  import opened BitReader
  import opened Bits
  import opened ChunkCopy
  import opened DecodingTable
  import opened InflateFast
  import opened Inflater
  import opened Inflation
  import opened WideInput
  import Lz77
  import Window

  // ---------- the output ----------

  /** The output of this call comes behind the earlier one. */
  ghost predicate Filled(out: seq<Byte>, prior: seq<Byte>, m: seq<Byte>, beg: nat, put: nat) {
    beg <= put <= |m| && out == prior + m[beg..put]
  }

  /** Nothing has changed before `put`, nor at or beyond `limit`. */
  ghost predicate SameOutside(m: seq<Byte>, m0: seq<Byte>, put: nat, limit: nat) {
    put <= limit <= |m| == |m0| && m[..put] == m0[..put] && m[limit..] == m0[limit..]
  }

  lemma SameOutsideJoin(m: seq<Byte>, m1: seq<Byte>, m0: seq<Byte>, put: nat, at: nat, limit: nat)
    requires SameOutside(m1, m0, put, limit) && SameOutside(m, m1, at, limit) && put <= at
    ensures SameOutside(m, m0, put, limit)
  {
    assert m[..put] == m[..at][..put] == m1[..at][..put] == m1[..put];
  }

  lemma SameOutsideIf(m: seq<Byte>, m0: seq<Byte>, put: nat, limit: nat)
    requires put <= limit <= |m| == |m0| && forall k :: 0 <= k < |m| && !(put <= k < limit) ==> m[k] == m0[k]
    ensures SameOutside(m, m0, put, limit)
  {
  }

  /** A lapped copy within the output is the match. */
  lemma {:induction false} LappedCopies(out: seq<Byte>, prior: seq<Byte>, m0: seq<Byte>, m: seq<Byte>, beg: nat,
      put: nat, dist: nat, len: nat)
    requires Filled(out, prior, m0, beg, put) && 1 <= dist <= put - beg && Lapped(m, m0, put, dist, len)
    ensures Filled(Lz77.Copy(out, dist, len), prior, m, beg, put + len)
  {
    if len == 0 {
      assert m[beg..put] == m0[beg..put];
    } else {
      LappedCopies(out, prior, m0, m, beg, put, dist, len - 1);
      var r := Lz77.Copy(out, dist, len - 1);
      assert r[|r| - dist] == m[beg..put + len - 1][put + len - 1 - dist - beg];
      assert m[beg..put + len] == m[beg..put + len - 1] + [m[put + len - 1]];
    }
  }

  lemma OneLess(m: seq<Byte>, w: seq<Byte>, at: nat, from: nat, n: nat)
    requires n >= 1 && at + n <= |m| && from + n <= |w| && m[at..at + n] == w[from..from + n]
    ensures m[at..at + n - 1] == w[from..from + n - 1] && m[at + n - 1] == w[from + n - 1]
  {
    var a, b := m[at..at + n], w[from..from + n];
    assert a[n - 1] == m[at + n - 1] && b[n - 1] == w[from + n - 1];
    assert a[..n - 1] == m[at..at + n - 1] && b[..n - 1] == w[from..from + n - 1];
  }

  lemma OneMore(r: seq<Byte>, prior: seq<Byte>, m: seq<Byte>, beg: nat, at: nat, dist: nat, b: Byte)
    requires Filled(r, prior, m, beg, at) && at < |m| && at - beg < dist <= |r| && m[at] == b == prior[|r| - dist]
    ensures Filled(r + [r[|r| - dist]], prior, m, beg, at + 1)
  {
    assert m[beg..at + 1] == m[beg..at] + [m[at]];
  }

  /** Bytes from before this call are the match as long as it reaches back behind the call's first byte. */
  lemma {:induction false} EarlierCopies(out: seq<Byte>, prior: seq<Byte>, m0: seq<Byte>, m: seq<Byte>, beg: nat,
      put: nat, dist: nat, n: nat)
    requires Filled(out, prior, m0, beg, put) && put + n <= |m| == |m0| && m[..put] == m0[..put]
    requires 1 <= dist <= |out| && put - beg + n <= dist
    requires m[put..put + n] == prior[|out| - dist..|out| - dist + n]
    ensures Filled(Lz77.Copy(out, dist, n), prior, m, beg, put + n)
  {
    if n == 0 {
      assert m[beg..put] == m0[beg..put];
    } else {
      OneLess(m, prior, put, |out| - dist, n);
      EarlierCopies(out, prior, m0, m, beg, put, dist, n - 1);
      OneMore(Lz77.Copy(out, dist, n - 1), prior, m, beg, put + n - 1, dist, m[put + n - 1]);
    }
  }

  // ---------- copying ----------

  /** There is a chunk behind the window that copies may read. */
  ghost predicate Padded(history: Window.History) {
    history.size + CHUNK <= history.window.Length
  }

  lemma SourceRoom(history: Window.History, prior: seq<Byte>, from: nat, back: int, n: nat)
    requires Source(history, prior, true, from, back, n) && n >= 1
    ensures history.Valid() && from < history.size && from + n <= history.size <= history.window.Length
  {
  }

  lemma SourceBytes(history: Window.History, prior: seq<Byte>, from: nat, back: int, n: nat)
    requires Source(history, prior, true, from, back, n) && n >= 1
    ensures n <= back <= |prior| && from + n <= history.window.Length
    ensures history.window[from..from + n] == prior[|prior| - back..|prior| - back + n]
  {
    hide Source;
    SourceByte(history, prior, true, from, back, n, n - 1);
    forall k | from <= k < from + n
      ensures k < history.window.Length && history.window[k] == prior[|prior| - back + (k - from)]
    {
      SourceByte(history, prior, true, from, back, n, k - from);
    }
  }

  /** Copies a part of a match from the window (chunkcopy_safe). */
  method CopyHistory(history: Window.History, output: array<Byte>, from: nat, put: nat, dist: nat, n: nat, limit: nat,
      ghost out: seq<Byte>, ghost prior: seq<Byte>, ghost beg: nat)
    returns (end: nat)
    requires Filled(out, prior, output[..], beg, put) && output != history.window && Padded(history)
    requires Source(history, prior, true, from, dist - (put - beg), n) && n >= 1 && 1 <= dist <= |out|
    requires put + n <= limit <= output.Length
    modifies output
    ensures end == put + n && Filled(Lz77.Copy(out, dist, n), prior, output[..], beg, end)
    ensures SameOutside(output[..], old(output[..]), put, limit)
  {
    hide Source;
    ghost var m0, w := output[..], history.window[..];
    SourceRoom(history, prior, from, dist - (put - beg), n);
    SourceBytes(history, prior, from, dist - (put - beg), n);
    end := ChunkcopyCoreSafe(output, put, history.window, from, n, limit);
    ghost var m := output[..];
    assert history.window[..] == w;
    assert m[put..put + n] == history.window[from..from + n];
    EarlierCopies(out, prior, m0, m, beg, put, dist, n);
    SameOutsideIf(m, m0, put, limit);
  }

  /** Copies a match whose bytes are all in the output; there is room behind it (chunkcopy_lapped_relaxed). */
  method CopyRelaxed(output: array<Byte>, beg: nat, put: nat, dist: nat, len: nat, ghost limit: nat,
      ghost out: seq<Byte>, ghost prior: seq<Byte>)
    returns (end: nat)
    requires Filled(out, prior, output[..], beg, put) && 1 <= dist <= put - beg && len >= 1
    requires put + Max(3 * CHUNK, len) <= limit <= output.Length
    modifies output
    ensures end == put + len && Filled(Lz77.Copy(out, dist, len), prior, output[..], beg, end)
    ensures SameOutside(output[..], old(output[..]), put, limit)
  {
    hide Filled;
    ghost var m0 := output[..];
    end := ChunkcopyLappedRelaxed(output, put, dist, len);
    LappedCopies(out, prior, m0, output[..], beg, put, dist, len);
    SameOutsideIf(output[..], m0, put, limit);
  }

  /** Copies the rest of a match from the output, behind a part from the window. */
  method CopyUnrolled(output: array<Byte>, beg: nat, put: nat, dist: nat, len: nat, limit: nat,
      ghost out: seq<Byte>, ghost prior: seq<Byte>)
    returns (end: nat)
    requires Filled(out, prior, output[..], beg, put) && 1 <= dist <= put - beg && len >= 1
    requires put + len <= limit <= output.Length && (dist < CHUNK ==> put + 2 * CHUNK <= limit)
    modifies output
    ensures end == put + len && Filled(Lz77.Copy(out, dist, len), prior, output[..], beg, end)
    ensures SameOutside(output[..], old(output[..]), put, limit)
  {
    hide Filled;
    ghost var m0 := output[..];
    end := ChunkcopyUnrolled(output, put, dist, len, limit);
    LappedCopies(out, prior, m0, output[..], beg, put, dist, len);
    SameOutsideIf(output[..], m0, put, limit);
  }

  /** The window's next position, the end if it has just been filled to it. */
  function NextOf(history: Window.History): nat
    reads history
  {
    if history.wnext == 0 && history.whave >= history.wsize then history.wsize else history.wnext
  }

  lemma NextSource(history: Window.History, prior: seq<Byte>, op: nat)
    requires HistoryOk(history, prior) && 1 <= op <= history.whave
    ensures var next := NextOf(history);
            && 1 <= next <= history.wsize
            && (next >= op ==> Source(history, prior, true, next - op, op, op))
            && (next < op ==>
                  && op - next <= history.wsize && Source(history, prior, true, 0, next, next)
                  && Source(history, prior, true, history.wsize - (op - next), op, op - next))
  {
  }

  /**
    Finds the match in the window; where it wraps around, copies the part up to the window's end first. What is left
    begins at `from`, with `op` bytes in one piece, which are all that the window has of it or enough.
   */
  method FirstPiece(history: Window.History, output: array<Byte>, put: nat, dist: nat, len: nat, limit: nat, op0: nat,
      ghost out: seq<Byte>, ghost prior: seq<Byte>, ghost beg: nat)
    returns (from: nat, op: nat, at: nat, left: nat)
    requires Filled(out, prior, output[..], beg, put) && output != history.window && Padded(history)
    requires HistoryOk(history, prior) && op0 == dist - (put - beg) && 1 <= op0 <= history.whave && 1 <= dist <= |out|
    requires len >= 1 && put + len <= limit <= output.Length
    modifies output
    ensures put <= at && at + left == put + len && left >= 1 && op >= 1
    ensures Source(history, prior, true, from, dist - (at - beg), op) && (op == dist - (at - beg) || op >= left)
    ensures Filled(Lz77.Copy(out, dist, at - put), prior, output[..], beg, at)
    ensures SameOutside(output[..], old(output[..]), put, limit) && HistoryOk(history, prior)
  {
    hide Source, HistoryOk, Filled;
    NextSource(history, prior, op0);
    var next := NextOf(history);
    op, at, left := op0, put, len;
    if next >= op {
      from := next - op;
    } else {
      op := op - next;
      from := history.wsize - op;
      if op < left {
        left := left - op;
        SourceLess(history, prior, true, from, op0, op, op);
        at := CopyHistory(history, output, from, put, dist, op, limit, out, prior, beg);
        from := 0;
        op := next;
      }
    }
  }

  /** Copies what is left of a match: perhaps a last piece from the window, and the rest from the output. */
  method LastPieces(history: Window.History, output: array<Byte>, beg: nat, from: nat, op: nat, put: nat, dist: nat,
      len: nat, limit: nat, ghost out: seq<Byte>, ghost prior: seq<Byte>)
    returns (end: nat)
    requires Filled(out, prior, output[..], beg, put) && output != history.window && Padded(history)
    requires Source(history, prior, true, from, dist - (put - beg), op) && op >= 1
    requires op == dist - (put - beg) || op >= len
    requires 1 <= dist <= |out| && len >= 1 && beg <= put && put + len <= limit <= output.Length
    requires dist < CHUNK ==> beg + dist + 2 * CHUNK <= limit
    modifies output
    ensures end == put + len && Filled(Lz77.Copy(out, dist, len), prior, output[..], beg, end)
    ensures SameOutside(output[..], old(output[..]), put, limit)
  {
    hide Source, HistoryOk, Filled, SameOutside;
    if op < len {
      ghost var m0 := output[..];
      var at := CopyHistory(history, output, from, put, dist, op, limit, out, prior, beg);
      ghost var m1, out1 := output[..], Lz77.Copy(out, dist, op);
      end := CopyUnrolled(output, beg, at, dist, len - op, limit, out1, prior);
      SameOutsideJoin(output[..], m1, m0, put, at, limit);
      CopyJoin(out, dist, op, len - op);
    } else {
      SourceLess(history, prior, true, from, dist - (put - beg), op, len);
      end := CopyHistory(history, output, from, put, dist, len, limit, out, prior, beg);
    }
  }

  /** Copies a match that begins in the window. */
  method CopyWindowMatch(history: Window.History, output: array<Byte>, beg: nat, put: nat, dist: nat, len: nat,
      limit: nat, ghost out: seq<Byte>, ghost prior: seq<Byte>)
    returns (end: nat)
    requires Filled(out, prior, output[..], beg, put) && output != history.window && Padded(history)
    requires HistoryOk(history, prior) && 1 <= dist - (put - beg) <= history.whave && beg <= put && 1 <= dist <= |out|
    requires 1 <= len <= MIN_OUTPUT && put + MIN_OUTPUT <= limit <= output.Length
    modifies output
    ensures end == put + len && Filled(Lz77.Copy(out, dist, len), prior, output[..], beg, end)
    ensures SameOutside(output[..], old(output[..]), put, limit)
  {
    hide Source, HistoryOk, Filled, SameOutside;
    ghost var m0 := output[..];
    var from, op, at, left := FirstPiece(history, output, put, dist, len, limit, dist - (put - beg), out, prior, beg);
    ghost var m1, out1, n := output[..], Lz77.Copy(out, dist, at - put), at - put;
    end := LastPieces(history, output, beg, from, op, at, dist, left, limit, out1, prior);
    SameOutsideJoin(output[..], m1, m0, put, at, limit);
    CopyJoin(out, dist, n, left);
  }

  // ---------- one symbol ----------

  /** A change of the state that uses no bits. */
  lemma WideSame(src: seq<Byte>, entry: Config, r: Regs, c: Config, c': Config)
    requires Wide(src, entry, r, c) && At(src, entry, Regs(r.inp, FromBits(c.p), r.bits), c') && c'.p == c.p
    ensures Wide(src, entry, r, c')
  {
    hide At, Excess;
  }

  /** Copies a match from the window, the output, or both; or finds that it reaches back too far. */
  method ChunkMatch(history: Window.History, output: array<Byte>, beg: nat, put: nat, len: nat, dist: nat, limit: nat,
      ghost r: Regs, ghost src: seq<Byte>, ghost entry: Config, ghost c: Config, ghost prior: seq<Byte>)
    returns (ok: bool, put': nat, ghost c': Config)
    requires Wide(src, entry, r, c) && c.s.mode.Matching? && c.s.mode.length == len && c.s.mode.offset == dist
    requires 1 <= len <= MAX_LENGTH && 1 <= dist <= MAX_DISTANCE
    requires Filled(c.s.out, prior, output[..], beg, put) && put + MIN_OUTPUT <= limit <= output.Length
    requires HistoryOk(history, prior) && output != history.window && Padded(history)
    modifies output
    ensures Wide(src, entry, r, c') && Filled(c'.s.out, prior, output[..], beg, put')
    ensures put <= put' <= put + MIN_OUTPUT && SameOutside(output[..], old(output[..]), put, limit)
    ensures c'.s.last == c.s.last && c'.s.mode == if ok then Len(c.s.mode.t) else Bad
  {
    hide At, Wide, HistoryOk, SameOutside, State.Valid, Step;
    HistoryBounds(history, prior);
    WideValid(src, entry, r, c);
    ghost var narrow := Regs(r.inp, FromBits(c.p), r.bits);
    var op := put - beg;
    if dist > op && dist - op > history.whave {
      AtTooFar(src, entry, narrow, c);
      c' := Config(State(Bad, c.s.last, c.s.out), c.p);
      WideSame(src, entry, r, c, c');
      SameOutsideIf(output[..], output[..], put, limit);
      return false, put, c';
    }
    AtCopied(src, entry, narrow, c);
    ghost var out := c.s.out;
    if dist > op {
      put' := CopyWindowMatch(history, output, beg, put, dist, len, limit, out, prior);
    } else {
      put' := CopyRelaxed(output, beg, put, dist, len, limit, out, prior);
    }
    ok, c' := true, Config(State(Len(c.s.mode.t), c.s.last, Lz77.Copy(out, dist, len)), c.p);
    WideSame(src, entry, r, c, c');
  }

  /** Puts out a literal. */
  method PutByte(output: array<Byte>, put: nat, b: Byte, ghost out: seq<Byte>, ghost prior: seq<Byte>, ghost beg: nat,
      ghost limit: nat)
    requires Filled(out, prior, output[..], beg, put) && put < limit <= output.Length
    modifies output
    ensures Filled(out + [b], prior, output[..], beg, put + 1) && SameOutside(output[..], old(output[..]), put, limit)
  {
    output[put] := b;
    assert output[beg..put + 1] == old(output[beg..put]) + [b];
  }

  /** A literal was put out. */
  lemma WideLiteral(src: seq<Byte>, entry: Config, r: Regs, c: Config, b: nat)
    requires Wide(src, entry, r, c) && c.s.mode.Lit? && c.s.mode.c == b
    ensures b < 256 && Wide(src, entry, r, Config(State(Len(c.s.mode.t), c.s.last, c.s.out + [b]), c.p))
  {
    hide At, Wide, State.Valid;
    WideValid(src, entry, r, c);
    AtLiteral(src, entry, Regs(r.inp, FromBits(c.p), r.bits), c);
    WideSame(src, entry, r, c, Config(State(Len(c.s.mode.t), c.s.last, c.s.out + [b]), c.p));
  }

  /** A match. */
  method WidePairCopy(src: seq<Byte>, distcode: Decoder, history: Window.History, output: array<Byte>, beg: nat,
      put: nat, limit: nat, r: Regs, here: Code, ghost inp0: nat, ghost entry: Config, ghost c: Config,
      ghost prior: seq<Byte>)
    returns (r': Regs, put': nat, mode: Phase, ghost c': Config)
    requires Wide(src, entry, r, c) && c.s.mode.LenExt? && Built(distcode, Dists, c.s.mode.t.dlens)
    requires c.s.mode.length == here.val && c.s.mode.extra == here.op % 16 && Supply(src, r, inp0, 33)
    requires Filled(c.s.out, prior, output[..], beg, put) && put + MIN_OUTPUT <= limit <= output.Length
    requires HistoryOk(history, prior) && output != history.window && Padded(history)
    modifies output
    ensures Wide(src, entry, r', c') && Filled(c'.s.out, prior, output[..], beg, put') && c'.s.last == c.s.last
    ensures Supply(src, r', inp0, 0) && r'.inp >= r.inp && r'.bits <= r.bits + 8 * (r'.inp - r.inp)
    ensures put <= put' <= put + MIN_OUTPUT && SameOutside(output[..], old(output[..]), put, limit)
    ensures (mode.LEN? && c'.s.mode == Len(c.s.mode.t)) || (mode.BAD? && c'.s.mode.Bad?)
  {
    hide Wide, Filled, HistoryOk, SameOutside, Built;
    var ok, len, dist;
    put', mode := put, BAD;
    r', ok, len, dist, c' := WidePair(src, distcode, r, here.val, here.op % 16, inp0, entry, c);
    if ok {
      ok, put', c' := ChunkMatch(history, output, beg, put, len, dist, limit, r', src, entry, c', prior);
      mode := if ok then LEN else BAD;
    } else {
      SameOutsideIf(output[..], output[..], put, limit);
    }
  }

  /** One literal, match, end of block or error: at most one load of 6 bytes, and at most 258 bytes put out. */
  method WideSymbol(src: seq<Byte>, lencode: Decoder, distcode: Decoder, history: Window.History, output: array<Byte>,
      beg: nat, put: nat, limit: nat, r: Regs, ghost entry: Config, ghost c: Config, ghost prior: seq<Byte>)
    returns (r': Regs, put': nat, mode: Phase, ghost c': Config)
    requires Wide(src, entry, r, c) && c.s.mode.Len? && HasTables(lencode, distcode, c.s.mode.t)
    requires Filled(c.s.out, prior, output[..], beg, put) && put + MIN_OUTPUT <= limit <= output.Length
    requires r.inp + MIN_WIDE_INPUT <= |src| && r.bits < 63
    requires HistoryOk(history, prior) && output != history.window && Padded(history)
    modifies output
    ensures Wide(src, entry, r', c') && Filled(c'.s.out, prior, output[..], beg, put') && c'.s.last == c.s.last
    ensures r.inp <= r'.inp <= r.inp + 6 && r'.bits < 63 && r'.bits < r.bits + 8 * (r'.inp - r.inp)
    ensures put <= put' <= put + MIN_OUTPUT && SameOutside(output[..], old(output[..]), put, limit)
    ensures (mode.LEN? && c'.s.mode == c.s.mode) || (mode.TYPE? && c'.s.mode.Type?) || (mode.BAD? && c'.s.mode.Bad?)
  {
    hide Wide, Filled, HistoryOk, SameOutside, Built;
    ghost var t, n := c.s.mode.t, 0;
    var here;
    put' := put;
    r', c' := MakeReady(src, r, 15, r.inp, 48, entry, c);
    r', here, c', n := WideLen(src, lencode, r', entry, c');
    if here.op == 0 {
      WideLiteral(src, entry, r', c', here.val);
      PutByte(output, put, here.val, c'.s.out, prior, beg, limit);
      c' := Config(State(Len(t), c'.s.last, c'.s.out + [here.val]), c'.p);
      put', mode := put + 1, LEN;
    } else if (here.op / 16) % 2 == 1 {
      r', put', mode, c' := WidePairCopy(src, distcode, history, output, beg, put, limit, r', here, r.inp, entry, c',
          prior);
    } else {
      mode := if (here.op / 32) % 2 == 1 then TYPE else BAD;
      SameOutsideIf(output[..], output[..], put, limit);
    }
  }

  // ---------- the loop ----------

  /** Decodes symbols as long as there is enough input and room for any of them. */
  method WideLoop(src: seq<Byte>, lencode: Decoder, distcode: Decoder, history: Window.History, output: array<Byte>,
      beg: nat, put: nat, limit: nat, r: Regs, ghost entry: Config, ghost prior: seq<Byte>)
    returns (r': Regs, put': nat, mode: Phase, ghost c: Config)
    requires Wide(src, entry, r, entry) && entry.s.mode.Len? && HasTables(lencode, distcode, entry.s.mode.t)
    requires Filled(entry.s.out, prior, output[..], beg, put) && put + MIN_OUTPUT <= limit <= output.Length
    requires |src| >= MIN_WIDE_INPUT && r.bits <= 32 && r.inp == 0
    requires HistoryOk(history, prior) && output != history.window && Padded(history)
    modifies output
    ensures Wide(src, entry, r', c) && Filled(c.s.out, prior, output[..], beg, put') && c.s.last == entry.s.last
    ensures (mode.LEN? && c.s.mode == entry.s.mode) || (mode.TYPE? && c.s.mode.Type?) || (mode.BAD? && c.s.mode.Bad?)
    ensures r'.bits < r.bits + 8 * r'.inp && put <= put' <= limit && HistoryOk(history, prior)
    ensures SameOutside(output[..], old(output[..]), put, limit)
  {
    hide Wide, Filled, HistoryOk, SameOutside, HasTables;
    var last, end := |src| - (MIN_WIDE_INPUT - 1), limit - (MIN_OUTPUT - 1);
    ghost var m0 := output[..];
    r', put', mode, c := r, put, LEN, entry;
    SameOutsideIf(m0, m0, put, limit);
    while true
      invariant Wide(src, entry, r', c) && Filled(c.s.out, prior, output[..], beg, put') && c.s.last == entry.s.last
      invariant mode.LEN? && c.s.mode == entry.s.mode && r'.inp < last && put <= put' < end
      invariant r'.bits < 63 && r'.bits <= r.bits + 8 * r'.inp && HistoryOk(history, prior)
      invariant SameOutside(output[..], m0, put, limit)
      decreases 8 * (|src| - r'.inp) + r'.bits
    {
      ghost var m1, at := output[..], put';
      r', put', mode, c := WideSymbol(src, lencode, distcode, history, output, beg, put', limit, r', entry, c, prior);
      SameOutsideJoin(output[..], m1, m0, put, at, limit);
      WideValid(src, entry, r', c);
      if !(mode.LEN? && r'.inp < last && put' < end) {
        break;
      }
    }
  }

  /** Gives back the whole bytes that were counted too early, and drops the bits beyond those that are left. */
  method WideGiveBack(src: seq<Byte>, r: Regs, ghost entry: Config, ghost c: Config, ghost fed: seq<Byte>)
    returns (r': Regs, ghost c': Config)
    requires Wide(src, entry, r, c) && InBlock(entry.s.mode) && r.bits < |entry.p| + 8 * r.inp
    requires Reached(fed, entry) && (|entry.p| < 8 || Halted(entry))
    ensures r'.inp <= |src| && r'.bits == |c'.p| < 8 && r'.hold == FromBits(c'.p) && Reached(fed + src[..r'.inp], c')
              && c'.s == c.s
    ensures 8 * (|src| - r'.inp) + r'.bits == 8 * (|src| - r.inp) + r.bits
  {
    hide At, Wide, Reached, FromBits, Step, State.Valid, BytesToBits, Pow2;
    WideValid(src, entry, r, c);
    ghost var narrow := Regs(r.inp, FromBits(c.p), r.bits);
    NeverBeforeEntry(src, entry, narrow, c);
    var len := r.bits / 8;
    r' := Regs(r.inp - len, r.hold % Pow2(r.bits - 8 * len), r.bits - 8 * len);
    WideBits(src, entry, r, c, r'.bits);
    FromBitsPrefix(c.p, r'.bits);
    AtGivenBack(src, entry, narrow, c, len, r');
    c' := Config(c.s, c.p[..r'.bits]);
    AtReached(fed, src, entry, r', c');
    AtValid(src, entry, r', c');
  }

  // ---------- the decoder ----------

  /** Nothing but the call's own part of the output buffer has changed. */
  twostate predicate SameRim(z: Inflater)
    reads z
  {
    z.beg == old(z.beg) && z.limit == old(z.limit) && SameOutside(z.outer, old(z.outer), z.beg, z.limit)
  }

  lemma OutputFilled(out: seq<Byte>, prior: seq<Byte>, outer: seq<Byte>, output: array<Byte>, beg: nat, put: nat,
      limit: nat)
    requires OutputOk(out, prior, outer, output, beg, put, limit)
    ensures Filled(out, prior, output[..], beg, put) && beg <= put <= limit <= output.Length == |outer|
    ensures output[..beg] == outer[..beg] && output[limit..] == outer[limit..]
  {
    assert output[limit..] == output[put..][limit - put..] == outer[put..][limit - put..];
  }

  lemma FilledOutput(out: seq<Byte>, prior: seq<Byte>, outer: seq<Byte>, output: array<Byte>, beg: nat, put: nat,
      limit: nat)
    requires Filled(out, prior, output[..], beg, put) && put <= limit <= output.Length && outer == output[..]
    ensures OutputOk(out, prior, outer, output, beg, put, limit)
  {
    assert output[..][beg..put] == output[beg..put];
  }

  lemma RimIs(m: seq<Byte>, m0: seq<Byte>, outer: seq<Byte>, beg: nat, put: nat, limit: nat)
    requires SameOutside(m, m0, put, limit) && beg <= put && |outer| == |m0|
    requires m0[..beg] == outer[..beg] && m0[limit..] == outer[limit..]
    ensures SameOutside(m, outer, beg, limit)
  {
    assert m[..beg] == m[..put][..beg] == m0[..put][..beg] == m0[..beg];
  }

  /** Fast decoding by chunks: it ends in a state that the slow modes reach on the same input. */
  method InflateFastChunk(z: Inflater)
    requires z.Valid() && z.chunks && z.mode.LEN?
    requires |z.reader.nextIn| >= MIN_WIDE_INPUT && z.limit - z.put >= MIN_OUTPUT
    modifies z.reader, z`state, z`mode, z`put, z`outer, z.output
    ensures z.Valid() && z.SameInput() && z.Progress() && SameRim(z)
    ensures z.reader.bits < 8 && (z.mode.LEN? || z.mode.TYPE? || z.mode.BAD?)
  {
    hide At, Wide, Filled, SameOutside, OutputOk, HistoryOk, HasTables, Reached, FromBits, Inflater.Shows, Step,
         State.Valid, BytesToBits;
    z.AtLen();
    ghost var entry, fed, t := Config(z.state, z.reader.pending), z.reader.fed, z.state.mode.t;
    ghost var m0, outer0, put0 := z.output[..], z.outer, z.put;
    var src, r := z.reader.nextIn, Regs(0, z.reader.hold, z.reader.bits);
    AtEntry(src, entry, r);
    WideStart(src, entry, r, entry);
    OutputFilled(z.state.out, z.prior, z.outer, z.output, z.beg, z.put, z.limit);
    var put, mode;
    ghost var c;
    r, put, mode, c := WideLoop(src, z.lencode, z.distcode, z.history, z.output, z.beg, z.put, z.limit, r, entry,
        z.prior);
    r, c := WideGiveBack(src, r, entry, c, fed);
    z.outer := z.output[..];
    RimIs(z.outer, m0, outer0, z.beg, put0, z.limit);
    FilledOutput(c.s.out, z.prior, z.outer, z.output, z.beg, put, z.limit);
    Restore(z, src, r, put, mode, c, t);
  }

  lemma MatchSource(history: Window.History, prior: seq<Byte>, back: nat, n: nat)
    requires HistoryOk(history, prior) && 1 <= back <= history.whave && n <= history.RunOf(back)
    ensures Source(history, prior, true, history.IndexOf(back), back, n)
  {
  }

  /** Copies a part of a match from the output, as far as the bytes may be written (chunkcopy_lapped_safe). */
  method CopyLapped(output: array<Byte>, beg: nat, put: nat, dist: nat, len: nat, limit: nat,
      ghost out: seq<Byte>, ghost prior: seq<Byte>)
    returns (end: nat)
    requires Filled(out, prior, output[..], beg, put) && 1 <= dist <= put - beg && len >= 1
    requires put + len <= limit <= output.Length
    modifies output
    ensures end == put + len && Filled(Lz77.Copy(out, dist, len), prior, output[..], beg, end)
    ensures SameOutside(output[..], old(output[..]), put, limit)
  {
    hide Filled;
    ghost var m0 := output[..];
    end := ChunkcopyLappedSafe(output, put, dist, len, limit);
    LappedCopies(out, prior, m0, output[..], beg, put, dist, len);
    SameOutsideIf(output[..], m0, put, limit);
  }

  /** The bytes of a match, from the window or from the output. */
  method MoveBytes(z: Inflater) returns (n: nat)
    requires Filled(z.state.out, z.prior, z.output[..], z.beg, z.put) && HistoryOk(z.history, z.prior)
    requires z.output != z.history.window && Padded(z.history) && z.beg <= z.put < z.limit <= z.output.Length
    requires 1 <= z.length && 1 <= z.offset <= |z.state.out| && z.offset - (z.put - z.beg) <= z.history.whave
    modifies z.output
    ensures 1 <= n <= z.length && n <= z.limit - z.put && HistoryOk(z.history, z.prior)
    ensures Filled(Lz77.Copy(z.state.out, z.offset, n), z.prior, z.output[..], z.beg, z.put + n)
    ensures SameOutside(z.output[..], old(z.output[..]), z.put, z.limit)
  {
    hide HistoryOk, Filled, SameOutside, Source;
    HistoryBounds(z.history, z.prior);
    var copy, end := z.put - z.beg, z.put;
    if z.offset > copy {
      copy := z.offset - copy;
      var from := z.history.IndexOf(copy);
      n := Min(Min(z.history.RunOf(copy), z.length), z.limit - z.put);
      MatchSource(z.history, z.prior, copy, n);
      end := CopyHistory(z.history, z.output, from, z.put, z.offset, n, z.limit, z.state.out, z.prior, z.beg);
    } else {
      n := Min(z.length, z.limit - z.put);
      end := CopyLapped(z.output, z.beg, z.put, z.offset, n, z.limit, z.state.out, z.prior);
    }
  }

  /** Moves the bytes of a match, and notes what is now in the rest of the buffer. */
  method MoveMatch(z: Inflater) returns (n: nat)
    requires OutputOk(z.state.out, z.prior, z.outer, z.output, z.beg, z.put, z.limit) && HistoryOk(z.history, z.prior)
    requires z.output != z.history.window && Padded(z.history) && z.put < z.limit
    requires 1 <= z.length && 1 <= z.offset <= |z.state.out| && z.offset - (z.put - z.beg) <= z.history.whave
    modifies z`outer, z.output
    ensures 1 <= n <= z.length && n <= z.limit - z.put && HistoryOk(z.history, z.prior)
    ensures OutputOk(Lz77.Copy(z.state.out, z.offset, n), z.prior, z.outer, z.output, z.beg, z.put + n, z.limit)
    ensures SameRim(z)
  {
    hide OutputOk, HistoryOk, Filled, SameOutside;
    OutputFilled(z.state.out, z.prior, z.outer, z.output, z.beg, z.put, z.limit);
    ghost var m0, outer0 := z.output[..], z.outer;
    n := MoveBytes(z);
    z.outer := z.output[..];
    RimIs(z.outer, m0, outer0, z.beg, z.put, z.limit);
    FilledOutput(Lz77.Copy(z.state.out, z.offset, n), z.prior, z.outer, z.output, z.beg, z.put + n, z.limit);
  }

  /** Moves the bytes of a match that does not reach back too far, and accounts for them. */
  method MatchOn(z: Inflater)
    requires z.Valid() && z.chunks && z.mode.MATCH? && z.put < z.limit
    requires z.offset - (z.put - z.beg) <= z.history.whave
    modifies z`state, z`mode, z`length, z`put, z`outer, z.output
    ensures z.Valid() && z.SameInput() && z.Progress() && SameRim(z)
  {
    hide Reached, FromBits, Step, Inflater.Shows, OutputOk, HistoryOk, HasTables, State.Valid, Trees.Valid, BytesToBits,
         Filled, SameOutside, Lz77.Copy;
    z.AtMatch();
    MatchIs(z.state, z.reader.pending);
    OutputBounds(z.state.out, z.prior, z.outer, z.output, z.beg, z.put, z.limit);
    HistoryBounds(z.history, z.prior);
    var n := MoveMatch(z);
    z.AfterCopy(n);
  }

  /** Copies a match by chunks, as much of it as fits and as one place has (state MATCH). */
  method DoMatchChunk(z: Inflater) returns (ok: bool)
    requires z.Valid() && z.chunks && z.mode.MATCH?
    modifies z`state, z`mode, z`length, z`put, z`outer, z.output
    ensures z.Valid() && z.SameInput() && (if ok then z.Progress() else z.put == z.limit && z.mode.MATCH?)
    ensures SameRim(z)
  {
    hide Reached, FromBits, Step, Inflater.Shows, OutputOk, HistoryOk, HasTables, State.Valid, Trees.Valid, BytesToBits,
         SameOutside, Lz77.Copy;
    z.AtMatch();
    OutputBounds(z.state.out, z.prior, z.outer, z.output, z.beg, z.put, z.limit);
    HistoryBounds(z.history, z.prior);
    OutputFilled(z.state.out, z.prior, z.outer, z.output, z.beg, z.put, z.limit);
    SameOutsideIf(z.outer, z.outer, z.beg, z.limit);
    MatchIs(z.state, z.reader.pending);
    ok := z.put < z.limit;
    if ok {
      if z.offset - (z.put - z.beg) > z.history.whave {
        z.TooFar();
      } else {
        MatchOn(z);
      }
    }
  }
}
