/**
  The decoder's tables for the compressor's trees (build_tree in zlib's trees.c against inflate_table in inftrees.c).
 */
module TreeTables {
  import opened Arithmetic
  import opened DecodingTable
  import opened HuffmanCode
  import opened TreeBuild
  import opened TreeCodes
  import InfTrees
  import Inflater
  import Inflation
  import TableSpace

  /**
    In a table that decodes the lengths of a built tree, bits that start with the codeword of a used symbol give that
    symbol.
   */
  lemma BuiltTreeDecodes(stat: StaticDesc, freq: seq<nat>, fc: seq<nat>, dl: seq<nat>, maxCode: int, t: CodeType,
      tab: seq<Code>, root: nat)
    requires stat.elems <= |freq| == |fc| == |dl| && TreeBuilt(stat, freq, fc, dl, maxCode)
    requires Decodes(t, dl[..stat.elems], tab, root)
    ensures forall n: nat, w: nat :: n < stat.elems && freq[n] != 0 && w % Pow2(dl[n]) == fc[n] ==>
              Lookup(t, tab, root, w) == Entry(EntryOf(t, n, 0).op, EntryOf(t, n, 0).val, dl[n])
  {
    hide Lookup, EntryOf, Kraft, SentCode, Pow2;
    var lens := dl[..stat.elems];
    forall n: nat, w: nat | n < stat.elems && freq[n] != 0 && w % Pow2(dl[n]) == fc[n]
      ensures Lookup(t, tab, root, w) == Entry(EntryOf(t, n, 0).op, EntryOf(t, n, 0).val, dl[n])
    {
      assert lens[n] == dl[n];
      assert StartsWith(lens, n, w);
    }
  }

  /** What a table for the code needs at most. */
  lemma RoomNeeded(stat: StaticDesc, freq: seq<nat>, fc: seq<nat>, dl: seq<nat>, maxCode: int, t: CodeType,
      request: nat)
    requires stat.elems <= |freq| == |fc| == |dl| && TreeBuilt(stat, freq, fc, dl, maxCode)
    requires t == Codes ==> stat.limit <= 7 && request == 7
    ensures ValidLengths(dl[..stat.elems]) && Accepted(t, dl[..stat.elems])
    ensures InfTrees.Room(t, dl[..stat.elems], RootBits(dl[..stat.elems], request)) <= Space(t)
  {
    hide Kraft, TableSize, RootBits, SentCode, Pow2;
    var lens := dl[..stat.elems];
    if t == Codes {
      assert Inflation.AllLess(lens, 8);
      Inflater.CodesRoom(lens);
    }
  }

  /** The entries that the decoder sets aside. */
  function Space(t: CodeType): nat {
    match t
    case Codes => 128
    case Lens => ENOUGH_LENS
    case Dists => ENOUGH_DISTS
  }

  /** The decoder's numbers of symbols and root sizes. */
  predicate AsDecoded(t: CodeType, elems: nat, request: nat) {
    match t
    case Codes => request == 7
    case Lens => elems <= 286 && request == 10
    case Dists => elems <= 30 && request == 9
  }

  lemma FitsSpace(t: CodeType, lens: seq<nat>, request: nat)
    requires ValidLengths(lens) && Accepted(t, lens) && AsDecoded(t, |lens|, request)
    ensures !TooLarge(t, TableSize(lens, RootBits(lens, request)))
  {
    hide Accepted, TableSize, RootBits;
    match t
    case Codes =>
    case Lens => TableSpace.LensFit(lens);
    case Dists => TableSpace.DistsFit(lens);
  }

  /**
    The table for a tree that was just built: it is never rejected, as a code or, at the root sizes of the decoder, for
    its size, and looking up the codeword of a used symbol, whatever follows it, gives the symbol.
   */
  method TableForTree(s: DeflateState, fc: array<nat>, dl: array<nat>, stat: StaticDesc,
                      t: CodeType, request: nat, table: array<Code>, work: array<nat>)
    returns (ret: int, end: nat, bits: nat)
    requires s.Valid() && s.TreeArrays(fc, dl) && stat.Valid() && 2 * stat.elems < fc.Length
    requires stat.elems <= MaxSymbols(t) && stat.elems <= work.Length && work !in {fc, dl} && Space(t) <= table.Length
    requires (table as object) !in {fc as object, dl as object}
    requires t == Codes ==> stat.limit <= 7 && request == 7
    modifies s, s.heap, s.depth, s.blCount, fc, dl, table, work
    ensures ret == if TooLarge(t, TableSize(dl[..stat.elems], RootBits(dl[..stat.elems], request))) then 1 else 0
    ensures AsDecoded(t, stat.elems, request) ==> ret == 0
    ensures ret == 0 ==>
              && end <= table.Length
              && forall n: nat, w: nat ::
                   n < stat.elems && old(fc[n]) != 0 && w % Pow2(dl[n]) == fc[n] ==>
                     Lookup(t, table[..end], bits, w) == Entry(EntryOf(t, n, 0).op, EntryOf(t, n, 0).val, dl[n])
  {
    hide Lookup, EntryOf, Pow2, Accepted, TableSize, RootBits, TreeBuilt, Decodes, InfTrees.Room, Cost, Rooted,
         TooLarge;
    ghost var freq := fc[..];
    var maxCode := BuildTree(s, fc, dl, stat);
    ghost var fc1, dl1 := fc[..], dl[..];
    RoomNeeded(stat, freq, fc1, dl1, maxCode, t, request);
    ret, end, bits := InfTrees.InflateTable(t, dl[..stat.elems], table, 0, request, work);
    assert fc[..] == fc1 && dl[..] == dl1;
    if AsDecoded(t, stat.elems, request) {
      FitsSpace(t, dl1[..stat.elems], request);
    }
    if ret == 0 {
      assert table[0..end] == table[..end];
      BuiltTreeDecodes(stat, freq, fc1, dl1, maxCode, t, table[..end], bits);
    }
  }
}
