/** Compressing a whole input, and what the decoder makes of the output (deflate and inflate of zlib). */
module WholeStream {
  import opened Arithmetic
  import opened BlockSymbols
  import opened Deflate
  import opened Lz77
  import opened MatchSearch
  import BlockStream
  import Inflate
  import Inflater
  import Inflation

  /** Compresses `data` into one stream. Decoding the stream, whatever follows it, gives `data` back. */
  method DeflateAll(data: seq<Byte>, level: int, windowBits: int, memLevel: int, strategy: Strategy,
      hash: Hash)
    returns (ok: bool, stream: seq<Byte>, ghost blocks: seq<BlockStream.Block>)
    requires level == 0 && strategy == Rle ==> Max(WindowBits(windowBits), 9) <= memLevel + 6
    ensures ok <==> GoodParameters(level, windowBits, memLevel)
    ensures ok ==> BlockStream.Encodes(blocks, stream, data)
    ensures ok ==> forall more: seq<Byte> ::
              Inflation.Inflates(stream + more, Inflation.State(Inflation.Done, true, data))
    ensures ok && level != 0 ==> BlockStream.AllBest(blocks, strategy == Fixed)
  {
    hide Holds, Chains, Tracks, Covers, Within, Expandable, Expand, BlockStream.AllBest,
         BlockStream.Encodes, Inflation.Inflates, Compressor.Coding, Pow2;
    stream, blocks := [], [];
    var s := DeflateInit(level, windowBits, memLevel, strategy, hash);
    ok := s != null;
    if ok {
      s.nextIn := data;
      s.RunToEnd();
      stream, blocks := s.coder.out, s.coder.blocks;
      StandsForAll(s.emitted, s.input);
      assert s.input == data;
      forall more: seq<Byte>
        ensures Inflation.Inflates(stream + more, Inflation.State(Inflation.Done, true, data))
      {
        BlockStream.EncodedInflates(blocks, stream, data, more);
      }
    }
  }

  /** Compresses `data` and decompresses the stream again, into an array with room for it and a byte more. */
  method RoundTrip(data: seq<Byte>, level: int, windowBits: int, memLevel: int, strategy: Strategy, hash: Hash,
      chunks: bool, finish: bool)
    returns (ok: bool, ret: Inflate.Ret, output: array<Byte>, put: nat)
    requires level == 0 && strategy == Rle ==> Max(WindowBits(windowBits), 9) <= memLevel + 6
    ensures ok <==> GoodParameters(level, windowBits, memLevel)
    ensures ok ==> ret == Inflate.StreamEnd && put <= output.Length && output[..put] == data
  {
    hide Inflation.Inflates, Inflate.Idle, Inflate.Stopped, BlockStream.Encodes, BlockStream.AllBest,
         Inflater.Inflater.Valid, GoodParameters;
    var stream;
    ghost var blocks;
    ok, stream, blocks := DeflateAll(data, level, windowBits, memLevel, strategy, hash);
    ret, put := Inflate.Ok, 0;
    output := new Byte[|data| + 1];
    if ok {
      var z := new Inflater.Inflater(chunks);
      Ready(z, output);
      ret := Inflate.Inflate(z, stream, output, 0, output.Length, finish);
      put := z.put;
      assert stream + [] == stream;
      Ends(z, stream, data);
    }
  }

  lemma Ready(z: Inflater.Inflater, output: array<Byte>)
    requires z.Valid() && z.state == Inflation.INITIAL && z.beg == z.put && z.prior == []
    requires (output as object) !in
              {z.history.window as object, z.lens as object, z.work as object, z.codes as object, z.fixed as object}
    ensures Inflate.Idle(z) && z.Apart(output)
  {
    hide Inflater.Inflater.Ready, Inflater.HistoryOk, Inflater.OutputOk;
  }

  /** With room for more than the data, the decoder stops only at the end of the stream. */
  lemma Ends(z: Inflater.Inflater, stream: seq<Byte>, data: seq<Byte>)
    requires Inflate.Idle(z) && Inflate.Stopped(z) && z.reader.fed + z.reader.nextIn == stream
    requires Inflation.Inflates(stream, Inflation.State(Inflation.Done, true, data))
    requires z.put == |z.state.out| && z.limit > |data|
    ensures z.mode.DONE? && z.state.out == data
  {
    hide Inflation.Inflates, Inflate.Idle;
    var done := Inflation.State(Inflation.Done, true, data);
    Inflate.OutputSoFar(z, stream, done);
    Inflate.InAnyPieces(z, stream);
    Inflation.InflatesOnce(stream, z.state, done);
    DoneMode(z);
  }

  lemma DoneMode(z: Inflater.Inflater)
    requires Inflate.Idle(z) && z.state.mode.Done?
    ensures z.mode.DONE?
  {
    hide Inflater.Inflater.Input, Inflater.HistoryOk, Inflater.OutputOk;
  }

  lemma StandsForAll(syms: seq<Symbol>, input: seq<Byte>)
    requires Covers(syms, input, |input|)
    ensures Expandable(syms) && Expand(syms) == input
  {
    assert input[..|input|] == input;
  }
}
