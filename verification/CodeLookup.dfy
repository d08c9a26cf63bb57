/** Looking up codes in the decoding tables with the bits that have been read so far. */
module CodeLookup {
  import opened Arithmetic
  import opened Bits
  import opened DecodingTable
  import opened HuffmanCode
  import opened Inflation

  lemma BeginsStarts(lens: seq<nat>, s: nat, p: seq<bool>)
    ensures Begins(lens, s, p) <==> StartsWith(lens, s, FromBits(p)) && lens[s] <= |p|
  {
    hide FromBits, SentCode, Pow2;
    if Coded(lens, s) && lens[s] <= |p| {
      FromBitsPrefix(p, lens[s]);
    }
  }

  /** When all codewords are used, every number starts with one. */
  lemma SomeStart(t: CodeType, lens: seq<nat>, w: nat)
    requires CodeValid(t, lens) && Kraft(lens) == Pow2(MAXBITS)
    ensures exists s: nat :: StartsWith(lens, s, w)
  {
    hide SentCode;
    var s := SomeSymbol(lens, MAXBITS + 1, Rev15(w));
    SentCodeCovers(lens, s, w);
    assert StartsWith(lens, s, w);
  }

  /** The table's answer for the bits so far is final when it uses no more than those. */
  lemma LookupDecodes(t: CodeType, lens: seq<nat>, tab: seq<Code>, root: nat, p: seq<bool>)
    requires CodeValid(t, lens) && DecodingTable.Decodes(t, lens, tab, root)
    ensures var e := Lookup(t, tab, root, FromBits(p));
      && e.Entry? && 1 <= e.length <= MAXBITS
      && Decode(t, lens, p) == if e.length <= |p| then Decoded(e.op, e.val, e.length) else TooShort
  {
    hide FromBits, SentCode, Lookup, EntryOf, Kraft, Pow2, Accepted, Decode;
    var w := FromBits(p);
    AcceptedKraft(t, lens);
    if exists s: nat :: StartsWith(lens, s, w) {
      var s: nat :| StartsWith(lens, s, w);
      BeginsStarts(lens, s, p);
      if lens[s] <= |p| {
        DecodeIs(t, lens, s, p);
      } else {
        forall s': nat
          ensures !Begins(lens, s', p)
        {
          BeginsStarts(lens, s', p);
          if Begins(lens, s', p) {
            SameStart(lens, s, s', w);
          }
        }
        NoneTooShort(t, lens, p);
      }
    } else {
      if Kraft(lens) == Pow2(MAXBITS) {
        SomeStart(t, lens, w);
      }
      forall s: nat
        ensures !Begins(lens, s, p)
      {
        BeginsStarts(lens, s, p);
      }
      NoneInvalid(t, lens, p);
    }
  }

  lemma SameStart(lens: seq<nat>, s: nat, s': nat, w: nat)
    requires Kraft(lens) <= Pow2(MAXBITS) && StartsWith(lens, s, w) && StartsWith(lens, s', w)
    ensures s == s'
  {
    hide SentCode;
    SentCodeCovers(lens, s, w);
    SentCodeCovers(lens, s', w);
    PrefixFree(lens, s, s', Rev15(w));
  }

  lemma NoneTooShort(t: CodeType, lens: seq<nat>, p: seq<bool>)
    requires |lens| <= MaxSymbols(t) && (forall s: nat :: !Begins(lens, s, p))
              && (|p| == 0 || Kraft(lens) >= Pow2(MAXBITS))
    ensures Decode(t, lens, p) == TooShort
  {
  }

  lemma NoneInvalid(t: CodeType, lens: seq<nat>, p: seq<bool>)
    requires |lens| <= MaxSymbols(t) && (forall s: nat :: !Begins(lens, s, p)) && Kraft(lens) < Pow2(MAXBITS)
    ensures Decode(t, lens, p) == if |p| >= 1 then Decoded(INVALID.op, INVALID.val, INVALID.bits) else TooShort
  {
  }

  /** Which root entry is selected does not depend on bits beyond the root's index. */
  lemma SameRoot(p: seq<bool>, q: seq<bool>, root: nat)
    requires root <= |p|
    ensures FromBits(p + q) % Pow2(root) == FromBits(p) % Pow2(root)
  {
    hide FromBits, Pow2;
    FromBitsPrefix(p, root);
    FromBitsPrefix(p + q, root);
    assert (p + q)[..root] == p[..root];
  }

  /** The code length code has no long codes, so its table is just the root. */
  lemma ShortCodes(lens: seq<nat>)
    requires AllLess(lens, 8)
    ensures Longest(lens) <= 7 && Longest(lens) <= RootBits(lens, 7)
  {
    var m := Longest(lens);
    if m > 7 {
      NoneOf(lens, m, |lens|);
    }
  }

  lemma {:induction false} NoneOf(lens: seq<nat>, l: nat, n: nat)
    requires n <= |lens| && AllLess(lens, 8) && l >= 8
    ensures Count(lens, l, n) == 0
  {
    if n > 0 {
      NoneOf(lens, l, n - 1);
    }
  }

  function Quotient(x: nat, n: nat): nat
    requires n > 0
  {
    x / n
  }

  /** Where the link `last` leads with the bits of `w`. */
  function SubIndex(last: Code, w: nat): nat {
    last.val + Quotient(w % Pow2(last.bits + last.op), Pow2(last.bits))
  }

  lemma LookupParts(t: CodeType, tab: seq<Code>, root: nat, w: nat)
    requires w % Pow2(root) < |tab|
    ensures var e, r := tab[w % Pow2(root)], Lookup(t, tab, root, w);
      && (!IsLink(t, e) ==> r == Entry(e.op, e.val, e.bits))
      && (IsLink(t, e) && r.Entry? ==>
            SubIndex(e, w) < |tab| && r == Entry(tab[SubIndex(e, w)].op, tab[SubIndex(e, w)].val,
                e.bits + tab[SubIndex(e, w)].bits))
      && (r.Entry? ==> e.bits <= r.length)
  {
    hide Pow2;
  }
}
