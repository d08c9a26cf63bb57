/** Decompressing in any number of calls (inflate in zlib's inflate.c). */
module Inflate {
  import opened Arithmetic
  import opened Bits
  import opened BitReader
  import opened InflateChunk
  import opened InflateFast
  import opened Inflater
  import opened Inflation
  import opened Lz77
  import opened WideInput
  import Window

  datatype Ret = Ok | StreamEnd | DataError | BufError

  /** The call can do no more: the stream has ended, the input is used up, or the output is full. */
  ghost predicate Stopped(z: Inflater)
    reads z`mode, z`put, z`limit, z`state, z.reader
  {
    z.mode.DONE? || z.mode.BAD? || z.Starved() || (z.put == z.limit && (z.mode.COPY? || z.mode.MATCH? || z.mode.LIT?))
  }

  lemma LenLensBounds(z: Inflater)
    requires z.Ready() && z.mode.LENLENS?
    ensures z.have <= z.ncode
  {
    hide Reached;
    z.AtLenLens();
  }

  lemma CodeLensBounds(z: Inflater)
    requires z.Ready() && z.mode.CODELENS?
    ensures z.have <= z.nlen + z.ndist
  {
    hide Reached;
    z.AtCodeLens();
  }

  /** The lengths of the code length code, and its table (LENLENS). */
  method DoLenLens(z: Inflater) returns (ok: bool)
    requires z.Ready() && z.mode.LENLENS?
    modifies z.reader, z`state, z`mode, z`have, z`lencode, z.lens, z.codes, z.work
    ensures z.Ready() && z.SameInput() && z.state.out == old(z.state.out) && (if ok then z.Progress() else z.Starved())
  {
    hide Inflater.Ready, Inflater.Starved;
    LenLensBounds(z);
    while z.have < z.ncode
      invariant z.Ready() && z.mode.LENLENS? && z.SameInput() && z.state.out == old(z.state.out) && z.have <= z.ncode
      invariant z.reader.Todo() <= old(z.reader.Todo())
      decreases z.reader.Todo()
    {
      ok := z.LenLensOne();
      if !ok {
        return;
      }
      LenLensBounds(z);
    }
    z.LenLensEnd();
    ok := true;
  }

  /** The code lengths of both trees, and their tables (CODELENS). */
  method DoCodeLens(z: Inflater) returns (ok: bool)
    requires z.Ready() && z.mode.CODELENS?
    modifies z.reader, z`state, z`mode, z`have, z`lencode, z`distcode, z.lens, z.codes, z.work
    ensures z.Ready() && z.SameInput() && z.state.out == old(z.state.out) && (if ok then z.Progress() else z.Starved())
  {
    hide Inflater.Ready, Inflater.Starved;
    CodeLensBounds(z);
    while z.have < z.nlen + z.ndist
      invariant z.Ready() && z.mode.CODELENS? && z.SameInput() && z.state.out == old(z.state.out)
                && z.have <= z.nlen + z.ndist
      invariant z.reader.Todo() <= old(z.reader.Todo())
      decreases z.reader.Todo()
    {
      ok := z.CodeLensOne();
      if !ok || z.mode.BAD? {
        return;
      }
      CodeLensBounds(z);
    }
    z.CodeLensEnd();
    ok := true;
  }

  /** The modes of a block's header. */
  method HeaderMode(z: Inflater) returns (ok: bool)
    requires z.Ready() && (z.mode.TYPE? || z.mode.STORED? || z.mode.TABLE? || z.mode.LENLENS? || z.mode.CODELENS?)
    modifies z.reader, z`state, z`mode, z`last, z`length, z`nlen, z`ndist, z`ncode, z`have, z`lencode, z`distcode,
             z.lens, z.codes, z.fixed, z.work
    ensures z.Ready() && z.SameInput() && z.state.out == old(z.state.out) && (if ok then z.Progress() else z.Starved())
  {
    hide Inflater.Ready, Inflater.Starved;
    match z.mode
    case TYPE => ok := z.DoType();
    case STORED => ok := z.DoStored();
    case TABLE => ok := z.DoTable();
    case LENLENS => ok := DoLenLens(z);
    case CODELENS => ok := DoCodeLens(z);
  }

  /** The modes of a code. */
  method CodeMode(z: Inflater) returns (ok: bool)
    requires z.Ready() && (z.mode.LEN? || z.mode.LENEXT? || z.mode.DIST? || z.mode.DISTEXT?)
    modifies z.reader, z`state, z`mode, z`length, z`offset, z`extra
    ensures z.Ready() && z.SameInput() && z.state.out == old(z.state.out) && (if ok then z.Progress() else z.Starved())
  {
    hide Inflater.Ready, Inflater.Starved;
    match z.mode
    case LEN => ok := z.DoLen();
    case LENEXT => ok := z.DoLenExt();
    case DIST => ok := z.DoDist();
    case DISTEXT => ok := z.DoDistExt();
  }

  /** What every mode keeps besides `Ready`: the output so far, and the window. */
  ghost predicate Kept(z: Inflater)
    reads z, z.output, z.history, z.history.window
  {
    && z.Apart(z.output) && z.history.Valid() && z.history.size == WINDOW_SIZE
    && OutputOk(z.state.out, z.prior, z.outer, z.output, z.beg, z.put, z.limit)
    && (!z.mode.DONE? && !z.mode.BAD? ==> HistoryOk(z.history, z.prior))
  }

  /** The rest of the output buffer: copies by chunks may have written in it up to the limit of the call. */
  twostate predicate Around(z: Inflater)
    reads z
  {
    SameRim(z) && (!z.chunks ==> z.outer == old(z.outer))
  }

  lemma AroundJoin(m: seq<Byte>, m1: seq<Byte>, m0: seq<Byte>, beg: nat, limit: nat)
    requires SameOutside(m1, m0, beg, limit) && SameOutside(m, m1, beg, limit)
    ensures SameOutside(m, m0, beg, limit)
  {
    SameOutsideJoin(m, m1, m0, beg, beg, limit);
  }

  /** Fast decoding, when there is enough input and room for it. */
  method FastMode(z: Inflater) returns (fast: bool)
    requires z.Valid() && z.mode.LEN?
    modifies z.reader, z`state, z`mode, z`put, z`outer, z.output
    ensures z.Valid() && z.SameInput() && Around(z) && (if fast then z.Progress() else unchanged(z, z.reader))
  {
    hide Inflater.Ready, Inflater.Starved, OutputOk, HistoryOk, SameOutside;
    PutWithin(z);
    SameOutsideIf(z.outer, z.outer, z.beg, z.limit);
    if z.chunks {
      fast := |z.reader.nextIn| >= MIN_WIDE_INPUT && z.limit - z.put >= MIN_OUTPUT;
      if fast {
        InflateFastChunk(z);
      }
    } else {
      fast := |z.reader.nextIn| >= MIN_INPUT && z.limit - z.put >= MIN_OUTPUT;
      if fast {
        InflateFast.InflateFast(z);
      }
    }
  }

  /** A match, by chunks or byte by byte. */
  method MatchMode(z: Inflater) returns (ok: bool)
    requires z.Valid() && z.mode.MATCH?
    modifies z`state, z`mode, z`length, z`put, z`outer, z.output
    ensures z.Valid() && z.SameInput() && Around(z) && (if ok then z.Progress() else z.put == z.limit && z.mode.MATCH?)
  {
    hide Inflater.Ready, Inflater.Starved, OutputOk, HistoryOk, SameOutside;
    PutWithin(z);
    SameOutsideIf(z.outer, z.outer, z.beg, z.limit);
    if z.chunks {
      ok := DoMatchChunk(z);
    } else {
      ok := z.DoMatch();
    }
  }

  /** The modes that put out nothing. */
  method SilentMode(z: Inflater) returns (ok: bool)
    requires z.Valid() && !z.mode.MATCH? && !z.mode.LIT? && !z.mode.COPY? && !z.mode.DONE? && !z.mode.BAD?
    modifies z.reader, z`state, z`mode, z`last, z`length, z`offset, z`extra, z`nlen, z`ndist, z`ncode, z`have,
             z`lencode, z`distcode, z.lens, z.codes, z.fixed, z.work
    ensures z.Valid() && z.SameInput() && (if ok then z.Progress() else z.Starved())
  {
    hide Inflater.Ready, Inflater.Starved, OutputOk, HistoryOk;
    if z.mode.LEN? || z.mode.LENEXT? || z.mode.DIST? || z.mode.DISTEXT? {
      ok := CodeMode(z);
    } else {
      ok := HeaderMode(z);
    }
  }

  /** One round of the loop over the modes. */
  method Round(z: Inflater) returns (ok: bool)
    requires z.Valid()
    modifies z.reader, z`state, z`mode, z`last, z`length, z`offset, z`extra, z`nlen, z`ndist, z`ncode, z`have,
             z`lencode, z`distcode, z`put, z`outer, z.lens, z.work, z.codes, z.fixed, z.output
    ensures z.Valid() && z.SameInput() && Around(z) && (if ok then z.Progress() else Stopped(z))
  {
    hide Inflater.Ready, Inflater.Starved, Inflater.Valid, SameOutside;
    PutWithin(z);
    SameOutsideIf(z.outer, z.outer, z.beg, z.limit);
    match z.mode
    case LEN =>
      ok := FastMode(z);
      if !ok {
        ok := SilentMode(z);
      }
    case MATCH => ok := MatchMode(z);
    case LIT => ok := z.DoLit();
    case COPY => ok := z.DoCopy();
    case DONE => ok := false;
    case BAD => ok := false;
    case _ => ok := SilentMode(z);
  }

  /** Goes through the modes until it has to stop. */
  method Run(z: Inflater)
    requires z.Valid()
    modifies z.reader, z`state, z`mode, z`last, z`length, z`offset, z`extra, z`nlen, z`ndist, z`ncode, z`have,
             z`lencode, z`distcode, z`put, z`outer, z.lens, z.work, z.codes, z.fixed, z.output
    ensures z.Valid() && z.SameInput() && Around(z) && Stopped(z)
  {
    hide Inflater.Ready, Inflater.Starved, OutputOk, HistoryOk, Stopped, SameOutside;
    PutWithin(z);
    SameOutsideIf(z.outer, z.outer, z.beg, z.limit);
    while true
      invariant z.Valid() && z.SameInput() && Around(z)
      decreases z.reader.Todo(), z.limit - z.put, z.Rank(z.mode)
    {
      PutWithin(z);
      ghost var outer := z.outer;
      var ok := Round(z);
      AroundJoin(z.outer, outer, old(z.outer), z.beg, z.limit);
      if !ok {
        break;
      }
      PutWithin(z);
    }
  }

  lemma PutWithin(z: Inflater)
    requires z.Valid()
    ensures z.beg <= z.put <= z.limit <= z.output.Length && z.state.out == z.prior + z.output[z.beg..z.put]
    ensures |z.outer| == z.output.Length && z.output[..z.beg] == z.outer[..z.beg]
              && z.output[z.put..] == z.outer[z.put..]
  {
    hide Inflater.Ready, HistoryOk;
  }

  /** The decoder between two calls: the window has the end of all output. */
  ghost predicate Idle(z: Inflater)
    reads z, z.reader, z.lens, z.output, z.history, z.history.window
  {
    z.Valid() && z.beg == z.put && (!z.mode.DONE? && !z.mode.BAD? ==> HistoryOk(z.history, z.state.out))
  }

  /** One call: takes what it can from the input and puts out what it can. */
  method Inflate(z: Inflater, input: seq<Byte>, output: array<Byte>, start: nat, avail: nat, finish: bool)
    returns (ret: Ret)
    requires Idle(z) && z.Apart(output) && start + avail <= output.Length
    modifies z, z.reader, z.lens, z.work, z.codes, z.fixed, output, z.history, z.history.window
    ensures Idle(z) && Stopped(z) && z.output == output && z.limit == start + avail
    ensures z.reader.fed + z.reader.nextIn == old(z.reader.fed) + input
    ensures start <= z.put <= z.limit && z.state.out == old(z.state.out) + output[start..z.put]
    ensures output[..start] == old(output[..start]) && output[z.limit..] == old(output[..])[z.limit..]
    ensures !z.chunks ==> output[z.put..] == old(output[..])[z.put..]
    ensures ret.StreamEnd? <==> z.mode.DONE?
    ensures ret.DataError? <==> z.mode.BAD?
    ensures ret.BufError? <==>
              !z.mode.DONE? && !z.mode.BAD? && (finish || (z.reader.nextIn == input && z.put == start))
    ensures if Keeps(old(z.history.wsize), z.put > start, z.mode, finish)
            then old(HistoryOk(z.history, z.state.out)) ==> HistoryOk(z.history, z.state.out)
            else unchanged(z.history, z.history.window)
  {
    hide Inflater.Ready, Inflater.Starved, OutputOk, HistoryOk, Stopped;
    Begin(z, input, output, start, avail);
    ghost var outer := z.outer;
    Run(z);
    PutWithin(z);
    Beyond(z.outer, outer, output[..], z.beg, z.put, z.limit);
    var none := |z.reader.nextIn| == |input| && z.put == z.beg;
    assert none <==> z.reader.nextIn == input && z.put == z.beg by {
      SameLength(old(z.reader.fed), input, z.reader.fed, z.reader.nextIn);
    }
    Finish(z, finish);
    if z.mode.DONE? {
      ret := StreamEnd;
    } else if z.mode.BAD? {
      ret := DataError;
    } else if none || finish {
      ret := BufError;
    } else {
      ret := Ok;
    }
  }

  lemma SameLength(fed: seq<Byte>, input: seq<Byte>, taken: seq<Byte>, next: seq<Byte>)
    requires taken + next == fed + input
    ensures |next| == |input| ==> next == input
  {
    if |next| == |input| {
      assert next == (taken + next)[|taken|..] == (fed + input)[|fed|..] == input;
    }
  }

  lemma Beyond(m: seq<Byte>, m0: seq<Byte>, output: seq<Byte>, beg: nat, put: nat, limit: nat)
    requires SameOutside(m, m0, beg, limit) && beg <= put <= limit && |output| == |m|
    requires output[..beg] == m[..beg] && output[put..] == m[put..]
    ensures output[..beg] == m0[..beg] && output[limit..] == m0[limit..] && (m == m0 ==> output[put..] == m0[put..])
  {
    assert output[limit..] == output[put..][limit - put..] == m[put..][limit - put..];
  }

  method Begin(z: Inflater, input: seq<Byte>, output: array<Byte>, start: nat, avail: nat)
    requires Idle(z) && z.Apart(output) && start + avail <= output.Length
    modifies z.reader`nextIn, z`output, z`beg, z`put, z`limit, z`prior, z`outer
    ensures z.Valid() && z.output == output && z.beg == z.put == start && z.limit == start + avail
              && z.reader.nextIn == input
    ensures z.prior == z.state.out && z.outer == output[..]
  {
    hide HistoryOk, OutputOk, Inflater.Ready;
    SetInput(z, input);
    SetOutput(z, output, start, avail);
    NothingPut(z);
  }

  method SetOutput(z: Inflater, output: array<Byte>, start: nat, avail: nat)
    modifies z`output, z`beg, z`put, z`limit, z`prior, z`outer
    ensures z.output == output && z.beg == z.put == start && z.limit == start + avail
    ensures z.prior == z.state.out && z.outer == output[..]
  {
    z.output, z.beg, z.put, z.limit, z.prior, z.outer := output, start, start, start + avail, z.state.out, output[..];
  }

  method SetInput(z: Inflater, input: seq<Byte>)
    requires z.Ready()
    modifies z.reader`nextIn
    ensures z.Ready() && z.reader.nextIn == input
  {
    hide Reached, FromBits, Step, State.Valid, BytesToBits, Inflater.Shows, Inflater.Ready, Inflater.Input, Halted;
    z.OpenReady();
    z.reader.nextIn := input;
    z.ReadyAgain();
  }

  /** When the window gets the end of the output of a call: it is in use already, or the decoder will go on. */
  predicate Keeps(wsize: nat, some: bool, mode: Phase, finish: bool) {
    wsize != 0 || (some && !mode.BAD? && !(mode.DONE? && finish))
  }

  /** Leaving a call: the window is updated, if it is in use or will be needed. */
  method Finish(z: Inflater, finish: bool)
    requires z.Valid()
    modifies z`beg, z`prior, z`outer, z.history, z.history.window
    ensures Idle(z)
    ensures if Keeps(old(z.history.wsize), z.put > old(z.beg), z.mode, finish)
            then old(HistoryOk(z.history, z.prior)) ==> HistoryOk(z.history, z.state.out)
            else unchanged(z.history, z.history.window)
  {
    hide Inflater.Ready, FromBits, Step, State.Valid, BytesToBits, OutputOk, HistoryOk, Window.Last, Window.Circular;
    PutWithin(z);
    if z.history.wsize != 0 || (z.put != z.beg && !z.mode.BAD? && (!z.mode.DONE? || !finish)) {
      UpdateWindow(z.history, z.output, z.beg, z.put, z.prior);
    } else {
      assert z.put == z.beg ==> z.state.out == z.prior;
    }
    z.beg, z.prior, z.outer := z.put, z.state.out, z.output[..];
    assert z.output[z.put..z.put] == [];
    NothingPut(z);
  }

  lemma NothingPut(z: Inflater)
    requires z.put <= z.limit <= z.output.Length && z.outer == z.output[..]
    ensures OutputOk(z.state.out, z.state.out, z.outer, z.output, z.put, z.put, z.limit)
  {
  }

  /** The window gets the end of the output of a call. */
  method UpdateWindow(history: Window.History, output: array<Byte>, beg: nat, put: nat, ghost prior: seq<Byte>)
    requires history.Valid() && history.size == WINDOW_SIZE && beg <= put <= output.Length && output != history.window
    modifies history, history.window
    ensures history.Valid() && old(HistoryOk(history, prior)) ==> HistoryOk(history, prior + output[beg..put])
    ensures history.Valid() && history.size == WINDOW_SIZE
  {
    history.Update(output, put, put - beg);
    Window.LastLast(prior, output[beg..put], WINDOW_SIZE);
  }

  // ---------- any number of calls ----------

  /** Nothing is left to do but for more input or the end. */
  ghost predicate Finished(z: Inflater)
    reads z, z.reader
  {
    z.mode.DONE? || z.mode.BAD? || z.Starved()
  }

  /** However the input was cut, and however much room each call had: what has come out is what the input means. */
  lemma InAnyPieces(z: Inflater, input: seq<Byte>)
    requires Idle(z) && Finished(z) && z.reader.fed + z.reader.nextIn == input
    ensures Inflates(input, z.state)
  {
    hide Reached, BytesToBits, FromBits, OutputOk, HistoryOk;
    var n := |z.reader.fed|;
    assert input[..n] == z.reader.fed;
    EndOf(z);
    assert Reached(input[..n], Config(z.state, z.reader.pending));
  }

  lemma EndOf(z: Inflater)
    requires z.Ready() && Finished(z)
    ensures Halted(Config(z.state, z.reader.pending)) && (z.reader.nextIn == [] || z.state.mode.Done?
              || z.state.mode.Bad?)
  {
    hide Reached, FromBits;
  }

  /** Two decoders that were given the same input in different pieces have put out the same. */
  lemma SameOutput(z: Inflater, y: Inflater)
    requires Idle(z) && Finished(z) && Idle(y) && Finished(y)
    requires z.reader.fed + z.reader.nextIn == y.reader.fed + y.reader.nextIn
    ensures z.state.out == y.state.out && z.state.mode == y.state.mode
  {
    hide Inflates, Idle, Finished;
    InAnyPieces(z, z.reader.fed + z.reader.nextIn);
    InAnyPieces(y, y.reader.fed + y.reader.nextIn);
    InflatesOnce(z.reader.fed + z.reader.nextIn, z.state, y.state);
  }

  /** A decoder that has not finished has put out the beginning of what the whole input means. */
  lemma OutputSoFar(z: Inflater, input: seq<Byte>, s: State)
    requires Idle(z) && z.reader.fed + z.reader.nextIn <= input && Inflates(input, s)
    ensures z.state.out <= s.out
  {
    hide Reached, BytesToBits, FromBits, OutputOk, HistoryOk, Inflates;
    var n := |z.reader.fed|;
    assert input[..n] == z.reader.fed;
    InflatesPrefix(input, n, Config(z.state, z.reader.pending), s);
  }

  /** Calls the decoder once for each piece of the input, with the given room in the output for each. */
  method InPieces(z: Inflater, pieces: seq<seq<Byte>>, rooms: seq<nat>, output: array<Byte>) returns (put: nat)
    requires Idle(z) && z.state == INITIAL && z.reader.fed == [] && z.reader.nextIn == [] && z.Apart(output)
              && |pieces| == |rooms|
    modifies z, z.reader, z.lens, z.work, z.codes, z.fixed, output, z.history, z.history.window
    ensures Idle(z) && put <= output.Length && z.state.out == output[..put]
    ensures z.reader.fed + z.reader.nextIn == Window.Joined(pieces)
    ensures Finished(z) ==> Inflates(Window.Joined(pieces), z.state)
  {
    hide Idle, Stopped, Inflates, Finished;
    put := 0;
    var i := 0;
    while i < |pieces|
      invariant 0 <= i <= |pieces| && put <= output.Length && Idle(z) && z.Apart(output)
      invariant z.state.out == output[..put] && z.reader.fed + z.reader.nextIn == Window.Joined(pieces[..i])
    {
      var room := Min(rooms[i], output.Length - put);
      ghost var fed, next := z.reader.fed, z.reader.nextIn;
      var ret := Inflate(z, z.reader.nextIn + pieces[i], output, put, room, false);
      assert pieces[..i + 1][..i] == pieces[..i];
      assert fed + (next + pieces[i]) == fed + next + pieces[i];
      put := z.put;
      i := i + 1;
    }
    assert pieces[..i] == pieces;
    if Finished(z) {
      InAnyPieces(z, Window.Joined(pieces));
    }
  }
}
