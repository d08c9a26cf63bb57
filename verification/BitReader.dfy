/** The bit buffer of the decoder: reading bits and codes (the macros and table lookups of zlib's inflate.c). */
module BitReader {
  import opened Arithmetic
  import opened Bits
  import opened CodeLookup
  import opened DecodingTable
  import opened HuffmanCode
  import opened Inflation
  import opened Lz77
  import BlockSymbols

  /** A decoding table, and how many bits select an entry of its root. */
  datatype Decoder = Decoder(table: seq<Code>, bits: nat)

  /** The table was built for the code. */
  ghost predicate Built(d: Decoder, t: CodeType, lens: seq<nat>) {
    && CodeValid(t, lens) && DecodingTable.Decodes(t, lens, d.table, d.bits) && Rooted(t, lens, d.table, d.bits)
    && d.bits <= MAXBITS
  }

  lemma RootEntry(d: Decoder, t: CodeType, lens: seq<nat>, p: seq<bool>)
    requires Built(d, t, lens)
    ensures var i := FromBits(p) % Pow2(d.bits);
      && i < |d.table|
      && (d.table[i].bits > |p| ==> Decode(t, lens, p) == TooShort) && d.table[i].bits <= MAXBITS
      && (IsLink(t, d.table[i]) ==> d.table[i].bits == d.bits < Longest(lens))
      && (!IsLink(t, d.table[i]) && d.table[i].bits <= |p| ==>
            Decode(t, lens, p) == Decoded(d.table[i].op, d.table[i].val, d.table[i].bits))
  {
    hide FromBits, Pow2, Decode, CodeValid, DecodingTable.Decodes, Lookup, Longest;
    LookupDecodes(t, lens, d.table, d.bits, p);
    LookupParts(t, d.table, d.bits, FromBits(p));
  }

  /** Behind a link the sub-table's entry has the answer. */
  lemma LinkedEntry(d: Decoder, t: CodeType, lens: seq<nat>, p: seq<bool>, last: Code)
    requires Built(d, t, lens) && FromBits(p) % Pow2(d.bits) < |d.table|
    requires last == d.table[FromBits(p) % Pow2(d.bits)] && IsLink(t, last)
    ensures var k := SubIndex(last, FromBits(p));
      && k < |d.table| && last.bits + d.table[k].bits <= MAXBITS
      && Decode(t, lens, p) ==
         if last.bits + d.table[k].bits <= |p| then Decoded(d.table[k].op, d.table[k].val,
             last.bits + d.table[k].bits) else TooShort
  {
    hide FromBits, Pow2, Decode, CodeValid, DecodingTable.Decodes, Lookup, SubIndex, Rooted;
    LookupDecodes(t, lens, d.table, d.bits, p);
    LookupParts(t, d.table, d.bits, FromBits(p));
  }

  lemma BuiltBounds(d: Decoder, t: CodeType, lens: seq<nat>)
    requires Built(d, t, lens)
    ensures CodeValid(t, lens) && |lens| <= MaxSymbols(t) && Pow2(d.bits) <= |d.table| && d.bits <= MAXBITS
  {
  }

  /** A code with bits left over was there before those. */
  lemma DecodeNeeds(t: CodeType, lens: seq<nat>, p: seq<bool>, q: seq<bool>)
    requires CodeValid(t, lens) && Decode(t, lens, p) == TooShort
    ensures Decode(t, lens, p + q).Decoded? ==> Decode(t, lens, p + q).length > |p|
    ensures |p| < MAXBITS
  {
    hide EntryOf, SentCode, FromBits, Accepted, Pow2, Kraft;
    if exists s: nat :: Begins(lens, s, p + q) {
      var s: nat :| Begins(lens, s, p + q);
      DecodeIs(t, lens, s, p + q);
      if lens[s] <= |p| {
        BeganBefore(lens, s, p, q);
        DecodeIs(t, lens, s, p);
      }
    }
    if |p| >= MAXBITS {
      var w := FromBits(p);
      forall s: nat
        ensures !StartsWith(lens, s, w)
      {
        BeginsStarts(lens, s, p);
      }
      AcceptedKraft(t, lens);
      if Kraft(lens) == Pow2(MAXBITS) {
        SomeStart(t, lens, w);
      }
    }
  }

  lemma ByteBits(b: nat)
    requires b < 256
    ensures FromBits(ToBits(b, 8)) == b
  {
    BlockSymbols.SmallPowers();
    FromTo(b, 8);
  }

  class BitReader {
    var hold: nat
    var bits: nat
    var nextIn: seq<Byte>
    ghost var fed: seq<Byte>
    ghost var pending: seq<bool>

    constructor ()
      ensures Buffered() && fed == [] && pending == [] && nextIn == [] && bits == 0
    {
      hold, bits, nextIn, fed, pending := 0, 0, [], [], [];
    }

    /** The bit buffer holds the bits that were read and not used. */
    ghost predicate Buffered()
      reads this
    {
      bits == |pending| && hold == FromBits(pending)
    }

    /** Since the input was `fed` and the bits were `bits_`, bytes were read and nothing else happened. */
    ghost predicate Reads(fed_: seq<Byte>, next_: seq<Byte>, bits_: seq<bool>)
      reads this
    {
      fed_ <= fed && fed + nextIn == fed_ + next_ && pending == bits_ + BytesToBits(fed[|fed_|..])
    }

    function Todo(): nat
      reads this
    {
      8 * |nextIn| + bits
    }

    /** Takes a byte of input into the bit buffer (PULLBYTE). */
    method PullByte()
      requires Buffered() && nextIn != []
      modifies this
      ensures Buffered() && Reads(old(fed), old(nextIn), old(pending))
                && pending == old(pending) + ToBits(old(nextIn)[0], 8)
      ensures bits == old(bits) + 8 && nextIn == old(nextIn)[1..] && fed == old(fed) + [old(nextIn)[0]]
    {
      hide FromBits, ToBits, Pow2;
      ghost var b := nextIn[0];
      assert BytesToBits([b]) == ToBits(b, 8) by {
        BytesToBitsAppend([], b);
        assert [] + [b] == [b] && [] + ToBits(b, 8) == ToBits(b, 8);
      }
      assert FromBits(pending + ToBits(b, 8)) == hold + b * Pow2(bits) by {
        FromBitsAppend(pending, ToBits(b, 8));
        ByteBits(b);
      }
      assert fed + nextIn == fed + [b] + nextIn[1..] && (fed + [b])[|fed|..] == [b];
      hold := hold + nextIn[0] * Pow2(bits);
      bits := bits + 8;
      nextIn := nextIn[1..];
      fed := fed + [b];
      pending := pending + ToBits(b, 8);
    }

    /** Takes a byte after others. */
    method PullNext(ghost fed_: seq<Byte>, ghost next_: seq<Byte>, ghost bits_: seq<bool>)
      requires Buffered() && nextIn != [] && Reads(fed_, next_, bits_)
      modifies this
      ensures Buffered() && Reads(fed_, next_, bits_) && Todo() == old(Todo()) && bits == old(bits) + 8
                && |nextIn| == |old(nextIn)| - 1
      ensures pending[..bits - 8] == old(pending) && bits_ <= pending
    {
      hide FromBits, ToBits, Pow2;
      ghost var f, b, more := fed, nextIn[0], fed[|fed_|..];
      PullByte();
      assert fed[|f|..] == [b] && fed[|fed_|..] == more + [b] && fed == f + [b];
      BytesToBitsAppend(more, b);
      assert BytesToBits([b]) == ToBits(b, 8) by {
        BytesToBitsAppend([], b);
        assert [] + [b] == [b] && [] + ToBits(b, 8) == ToBits(b, 8);
      }
    }

    /** Reads until there are `n` bits, or the input ends (NEEDBITS). */
    method NeedBits(n: nat) returns (ok: bool)
      requires Buffered()
      modifies this
      ensures Buffered() && Reads(old(fed), old(nextIn), old(pending)) && Todo() == old(Todo())
      ensures ok <==> bits >= n
      ensures !ok ==> nextIn == []
      ensures (pending == old(pending) || bits < n + 8) && bits % 8 == old(bits) % 8
    {
      hide FromBits, ToBits, BytesToBits;
      while bits < n
        invariant Buffered() && Reads(old(fed), old(nextIn), old(pending)) && Todo() == old(Todo())
        invariant (pending == old(pending) || bits < n + 8) && bits % 8 == old(bits) % 8
        decreases |nextIn|
      {
        if nextIn == [] {
          return false;
        }
        PullNext(old(fed), old(nextIn), old(pending));
      }
      ok := true;
    }

    /** The low bits (BITS). */
    function LowBits(n: nat): nat
      reads this
    {
      hold % Pow2(n)
    }

    /** The low bits of the buffer are the first ones that were read. */
    lemma LowAre(n: nat)
      requires Buffered() && n <= bits
      ensures LowBits(n) == FromBits(pending[..n])
    {
      FromBitsPrefix(pending, n);
    }

    /** Uses up `n` bits (DROPBITS). */
    method Drop(n: nat)
      requires Buffered() && n <= bits
      modifies `hold, `bits, `pending
      ensures Buffered() && pending == old(pending)[n..]
    {
      hide FromBits, Pow2;
      FromBitsPrefix(pending, n);
      hold := hold / Pow2(n);
      bits := bits - n;
      pending := pending[n..];
    }

    /** Takes the low bits. */
    method GetBits(n: nat) returns (v: nat)
      requires Buffered() && n <= bits
      modifies `hold, `bits, `pending
      ensures Buffered() && v == FromBits(old(pending)[..n]) && pending == old(pending)[n..]
    {
      hide FromBits, Pow2;
      LowAre(n);
      v := LowBits(n);
      Drop(n);
    }

    /** Takes whole bytes past the empty bit buffer. */
    method Skip(n: nat)
      requires Buffered() && bits == 0 && n <= |nextIn|
      modifies `nextIn, `fed
      ensures nextIn == old(nextIn)[n..] && fed == old(fed) + old(nextIn)[..n]
    {
      fed := fed + nextIn[..n];
      nextIn := nextIn[n..];
    }

    // ---------- codes ----------

    /** Every byte since `start` was read because the bits before it did not hold a whole code. */
    ghost predicate Pulled(start: seq<bool>, t: CodeType, codeLens: seq<nat>)
      requires |codeLens| <= MaxSymbols(t)
      reads this
    {
      pending == start || (bits == |pending| && bits >= 8 && Decode(t, codeLens, pending[..bits - 8]) == TooShort)
    }

    lemma PulledFew(start: seq<bool>, t: CodeType, codeLens: seq<nat>)
      requires CodeValid(t, codeLens) && Pulled(start, t, codeLens) && pending != start
      ensures Decode(t, codeLens, pending).Decoded? ==> bits < Decode(t, codeLens, pending).length + 8
      ensures bits <= MAXBITS + 7
    {
      hide Decode;
      assert pending[..bits - 8] + pending[bits - 8..] == pending;
      DecodeNeeds(t, codeLens, pending[..bits - 8], pending[bits - 8..]);
    }

    /** Reads until the root table's entry needs no more bits than there are. */
    method FindRoot(d: Decoder, ghost t: CodeType, ghost codeLens: seq<nat>) returns (ok: bool, here: Code)
      requires Buffered() && Built(d, t, codeLens)
      modifies this
      ensures Buffered() && Reads(old(fed), old(nextIn), old(pending)) && Todo() == old(Todo())
      ensures !ok ==> nextIn == [] && Decode(t, codeLens, pending) == TooShort
      ensures ok ==> hold % Pow2(d.bits) < |d.table| && here == d.table[hold % Pow2(d.bits)] && here.bits <= bits
      ensures Pulled(old(pending), t, codeLens)
    {
      hide FromBits, ToBits, BytesToBits, Built, Pow2, Decode, Longest;
      BuiltBounds(d, t, codeLens);
      while true
        invariant Buffered() && Reads(old(fed), old(nextIn), old(pending)) && Todo() == old(Todo())
        invariant Pulled(old(pending), t, codeLens)
        decreases |nextIn|
      {
        BuiltBounds(d, t, codeLens);
        RootEntry(d, t, codeLens, pending);
        here := d.table[LowBits(d.bits)];
        if here.bits <= bits {
          break;
        }
        if nextIn == [] {
          ok := false;
          return;
        }
        ghost var before := pending;
        PullNext(old(fed), old(nextIn), old(pending));
      }
      ok := true;
    }

    /** Reads a code: the bits used by the root table's entry, if it is a link, and the symbol's entry. */
    method FindCode(d: Decoder, t: CodeType, ghost codeLens: seq<nat>) returns (ok: bool, first: nat, here: Code)
      requires Buffered() && Built(d, t, codeLens)
      modifies this
      ensures Buffered() && Reads(old(fed), old(nextIn), old(pending)) && Todo() == old(Todo())
      ensures !ok ==> nextIn == [] && Decode(t, codeLens, pending) == TooShort
      ensures ok ==>
        first + here.bits <= bits && Decode(t, codeLens, pending) == Decoded(here.op, here.val, first + here.bits)
      ensures ok ==> pending == old(pending) || bits < first + here.bits + 8
      ensures pending == old(pending) || bits <= MAXBITS + 7
    {
      hide FromBits, ToBits, BytesToBits, Built, Pow2, Decode, Longest, Pulled;
      first := 0;
      BuiltBounds(d, t, codeLens);
      ok, here := FindRoot(d, t, codeLens);
      if ok && IsLink(t, here) {
        first := here.bits;
        ok, here := FollowLink(d, here, t, codeLens, old(fed), old(nextIn), old(pending));
      } else {
        RootEntry(d, t, codeLens, pending);
      }
      if pending != old(pending) {
        PulledFew(old(pending), t, codeLens);
      }
    }

    /** Reads until the sub-table's entry needs no more bits than there are. */
    method FollowLink(d: Decoder, last_: Code, t: CodeType, ghost codeLens: seq<nat>,
                      ghost fed_: seq<Byte>, ghost next_: seq<Byte>, ghost bits_: seq<bool>)
        returns (ok: bool, here: Code)
      requires Buffered() && Built(d, t, codeLens) && Pulled(bits_, t, codeLens) && Reads(fed_, next_, bits_)
                && IsLink(t, last_)
      requires FromBits(pending) % Pow2(d.bits) < |d.table| && last_ == d.table[FromBits(pending) % Pow2(d.bits)]
                && last_.bits <= bits
      modifies this
      ensures Buffered() && Todo() == old(Todo()) && Pulled(bits_, t, codeLens) && Reads(fed_, next_, bits_)
      ensures !ok ==> nextIn == [] && Decode(t, codeLens, pending) == TooShort
      ensures ok ==>
                last_.bits + here.bits <= bits
                && Decode(t, codeLens, pending) == Decoded(here.op, here.val, last_.bits + here.bits)
    {
      hide FromBits, ToBits, BytesToBits, Built, Pow2, Decode, Longest, SubIndex, IsLink;
      BuiltBounds(d, t, codeLens);
      RootEntry(d, t, codeLens, pending);
      while true
        invariant Buffered() && Todo() == old(Todo()) && Pulled(bits_, t, codeLens) && Reads(fed_, next_, bits_)
        invariant bits >= last_.bits == d.bits && FromBits(pending) % Pow2(d.bits)
                  == FromBits(old(pending)) % Pow2(d.bits)
        decreases |nextIn|
      {
        LinkedEntry(d, t, codeLens, pending, last_);
        here := d.table[SubIndex(last_, hold)];
        if last_.bits + here.bits <= bits {
          break;
        }
        if nextIn == [] {
          ok := false;
          return;
        }
        ghost var before := pending;
        PullNext(fed_, next_, bits_);
        SameRoot(before, pending[bits - 8..], d.bits);
        assert before + pending[bits - 8..] == pending;
      }
      ok := true;
    }
  }
}
