/**
  Streams of blocks as the compressor writes them, and what the decoder makes of them (section 3.2 of RFC 1951).
 */
module BlockStream {
  import opened Arithmetic
  import opened Bits
  import opened BlockHeader
  import opened BlockRoundTrip
  import opened BlockSymbols
  import opened DeflateBlock
  import opened FlushBlock
  import opened Lz77
  import opened RunLengths
  import Inflation

  /** What was sent is a block in one of the three forms. */
  ghost predicate Written(kind: Kind, before: seq<bool>, after: seq<bool>, last: nat, syms: seq<Symbol>,
      data: seq<Byte>, p: Plan, lt: Tree, dt: Tree) {
    && FixedTrees(lt, dt)
    && (kind.Stored? ==> after == before + StoredBits(|before|, last, data))
    && (kind.Static? ==> SentStatic(before, after, last, syms, lt, dt))
    && (kind.Dynamic? ==> SentDynamic(before, after, last, syms, p) && p.Canonical())
  }

  // ---------- streams of blocks ----------

  /** A block of a stream: the bits and symbols before it, its own symbols and bytes, and its trees. */
  datatype Block = Block(kind: Kind, last: nat, before: seq<bool>, done: seq<Symbol>, syms: seq<Symbol>,
      data: seq<Byte>,
                         p: Plan, lt: Tree, dt: Tree)

  /** The block has its best form, where its bytes are there or not. */
  ghost predicate Best(b: Block, hasBuf: bool, fixed: bool) {
    BestForm(b.kind, b.p, b.syms, |b.data|, hasBuf, fixed)
  }

  ghost predicate AllBest(blocks: seq<Block>, fixed: bool) {
    forall i :: 0 <= i < |blocks| ==> Best(blocks[i], true, fixed) || Best(blocks[i], false, fixed)
  }

  lemma BestMore(blocks: seq<Block>, more: seq<Block>, hasBuf: bool, fixed: bool)
    requires AllBest(blocks, fixed) && |more| == |blocks| + 1 && more[..|blocks|] == blocks
    requires Best(more[|blocks|], hasBuf, fixed)
    ensures AllBest(more, fixed)
  {
    hide Best;
    forall i | 0 <= i < |more|
      ensures Best(more[i], true, fixed) || Best(more[i], false, fixed)
    {
      if i < |blocks| {
        assert more[i] == blocks[i];
      }
    }
  }

  ghost predicate Closed(blocks: seq<Block>) {
    blocks != [] && blocks[|blocks| - 1].last == 1
  }

  /** The bits are the blocks one after the other (section 3.2 of RFC 1951), and the symbols are theirs. */
  ghost predicate Stream(blocks: seq<Block>, bits: seq<bool>, syms: seq<Symbol>) {
    if blocks == [] then bits == [] && syms == []
    else
      var front, b := blocks[..|blocks| - 1], blocks[|blocks| - 1];
      && !Closed(front) && Stream(front, b.before, b.done) && b.last <= 1
      && Written(b.kind, b.before, bits, b.last, b.syms, b.data, b.p, b.lt, b.dt) && syms == b.done + b.syms
      && Expandable(b.done) && Expandable(syms)
      && (b.kind.Stored? ==> |b.data| < 0x1_0000 && Lz77.Expand(syms) == Lz77.Expand(b.done) + b.data)
  }

  lemma StreamExpands(blocks: seq<Block>, bits: seq<bool>, syms: seq<Symbol>)
    requires Stream(blocks, bits, syms)
    ensures Expandable(syms)
  {
  }

  /** One more block. */
  lemma StreamNext(blocks: seq<Block>, bits: seq<bool>, syms: seq<Symbol>, b: Block, after: seq<bool>)
    requires Stream(blocks, bits, syms) && !Closed(blocks) && b.before == bits && b.done == syms && b.last <= 1
    requires Written(b.kind, bits, after, b.last, b.syms, b.data, b.p, b.lt, b.dt) && Expandable(syms + b.syms)
    requires b.kind.Stored? ==>
               |b.data| < 0x1_0000 && Expandable(syms) && Lz77.Expand(syms + b.syms) == Lz77.Expand(syms) + b.data
    ensures Stream(blocks + [b], after, syms + b.syms) && Closed(blocks + [b]) == (b.last == 1)
  {
    hide Written, Expandable, Lz77.Expand;
    StreamExpands(blocks, bits, syms);
    assert (blocks + [b])[..|blocks|] == blocks;
  }

  /** The bits of a stream carry the bytes of its symbols. */
  lemma {:induction false} StreamCarries(blocks: seq<Block>, bits: seq<bool>, syms: seq<Symbol>)
    requires Stream(blocks, bits, syms)
    ensures Expandable(syms) && Carries(bits, Closed(blocks), Lz77.Expand(syms))
  {
    hide Expandable, Lz77.Expand, Carries, StoredBits, SentStatic, SentDynamic, FixedTrees, Plan.Canonical;
    if blocks == [] {
      NothingYet();
    } else {
      var front, b := blocks[..|blocks| - 1], blocks[|blocks| - 1];
      StreamCarries(front, b.before, b.done);
      BlockCarries(b.kind, b.before, bits, b.last, b.done, b.syms, b.data, b.p, b.lt, b.dt);
    }
  }

  lemma NothingYet()
    ensures Expandable([]) && Carries([], false, Lz77.Expand([])) && BytesToBits([]) + [] == []
  {
    NothingCarries();
  }

  /** Whole bytes before a block change nothing in what it looks like. */
  lemma SentBehind(o: seq<bool>, before: seq<bool>, after: seq<bool>, last: nat, syms: seq<Symbol>, p: Plan, lt: Tree,
      dt: Tree, data: seq<Byte>)
    requires |o| % 8 == 0
    ensures SentStatic(before, after, last, syms, lt, dt) ==> SentStatic(o + before, o + after, last, syms, lt, dt)
    ensures SentDynamic(before, after, last, syms, p) ==> SentDynamic(o + before, o + after, last, syms, p)
    ensures after == before + StoredBits(|before|, last, data) ==>
              o + after == o + before + StoredBits(|o + before|, last, data)
  {
    hide BlockBits, AllCodable, HasCode, Plan.Valid, Plan.HeaderBits, SymbolsBits, CodeBits, ToBits, BytesToBits;
    SamePadding(|o|, |before| + 3);
  }

  lemma SamePadding(o: nat, n: nat)
    requires o % 8 == 0
    ensures Padding(o + n) == Padding(n)
  {
    var k := o / 8;
    assert o == k * 8;
    ModOfSum(n, k, 8);
    assert o + n == n + k * 8;
  }

  lemma WrittenBehind(kind: Kind, o: seq<bool>, before: seq<bool>, after: seq<bool>, last: nat, syms: seq<Symbol>,
      data: seq<Byte>, p: Plan, lt: Tree, dt: Tree)
    requires Written(kind, before, after, last, syms, data, p, lt, dt) && |o| % 8 == 0
    ensures Written(kind, o + before, o + after, last, syms, data, p, lt, dt)
  {
    hide FixedTrees, StoredBits, SentStatic, SentDynamic, Plan.Canonical;
    SentBehind(o, before, after, last, syms, p, lt, dt, data);
  }

  /** The stream with the block that was just sent. */
  lemma AppendBlock(blocks: seq<Block>, o: seq<bool>, before: seq<bool>, after: seq<bool>, b: Block)
    requires Stream(blocks, o + before, b.done) && !Closed(blocks) && b.before == o + before && b.last <= 1
    requires Written(b.kind, before, after, b.last, b.syms, b.data, b.p, b.lt, b.dt) && |o| % 8 == 0
    requires Expandable(b.done) && Expandable(b.done + b.syms)
    requires b.kind.Stored? ==> |b.data| < 0x1_0000 && Lz77.Expand(b.done + b.syms) == Lz77.Expand(b.done) + b.data
    ensures Stream(blocks + [b], o + after, b.done + b.syms) && Closed(blocks + [b]) == (b.last == 1)
  {
    hide Stream, Closed, Written, Expandable, Lz77.Expand;
    WrittenBehind(b.kind, o, before, after, b.last, b.syms, b.data, b.p, b.lt, b.dt);
    StreamNext(blocks, o + before, b.done, b, o + after);
  }

  // ---------- whole streams ----------

  /** The bytes are a whole stream of these blocks, filled up to a byte, and its symbols stand for `data`. */
  ghost predicate Encodes(blocks: seq<Block>, stream: seq<Byte>, data: seq<Byte>) {
    exists sent: seq<bool>, syms: seq<Symbol> ::
      && Stream(blocks, sent, syms) && Closed(blocks) && Expandable(syms) && Lz77.Expand(syms) == data
      && sent <= BytesToBits(stream) && |BytesToBits(stream)| < |sent| + 8
  }

  lemma EncodesIf(blocks: seq<Block>, stream: seq<Byte>, data: seq<Byte>, sent: seq<bool>, pad: seq<bool>,
      syms: seq<Symbol>)
    requires Stream(blocks, sent, syms) && Closed(blocks) && Expandable(syms) && Lz77.Expand(syms) == data
    requires BytesToBits(stream) == sent + pad && |pad| < 8
    ensures Encodes(blocks, stream, data)
  {
    hide Stream, Closed, Expandable, Lz77.Expand, BytesToBits;
  }

  /** A stream inflates to exactly the data, whatever follows it. */
  lemma EncodedInflates(blocks: seq<Block>, stream: seq<Byte>, data: seq<Byte>, more: seq<Byte>)
    requires Encodes(blocks, stream, data)
    ensures Inflation.Inflates(stream + more, Inflation.State(Inflation.Done, true, data))
  {
    hide Stream, Closed, Expandable, Lz77.Expand, BytesToBits, Carries, Inflation.Inflates;
    var sent: seq<bool>, syms: seq<Symbol> :|
      && Stream(blocks, sent, syms) && Closed(blocks) && Expandable(syms) && Lz77.Expand(syms) == data
      && sent <= BytesToBits(stream) && |BytesToBits(stream)| < |sent| + 8;
    StreamCarries(blocks, sent, syms);
    StreamInflates(sent, data, BytesToBits(stream)[|sent|..], stream, more);
  }
}
