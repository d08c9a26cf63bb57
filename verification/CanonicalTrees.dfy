/**
  The trees that the compressor builds are canonical codes, also of the lengths up to the last used symbol, which are
  all that is sent.
 */
module CanonicalTrees {
  import opened Arithmetic
  import opened BlockSymbols
  import opened HuffmanCode
  import opened RunLengths
  import opened TreeBuild
  import opened TreeCodes

  /** The first `n` lengths are those of a complete code, and no other of the first `elems` symbols has a codeword. */
  ghost predicate Canonical(t: Tree, n: nat, elems: nat) {
    && n <= elems <= |t.len| == |t.code| && ValidLengths(t.len[..n]) && Kraft(t.len[..n]) == Pow2(MAXBITS)
    && forall k: nat :: k < elems && HasCode(t, k) ==> k < n && t.code[k] == SentCode(t.len[..n], k)
  }

  // ---------- lengths behind the last used symbol ----------

  ghost predicate ZeroFrom(lens: seq<nat>, n: nat) {
    n <= |lens| && forall i :: n <= i < |lens| ==> lens[i] == 0
  }

  lemma {:induction false} CountZeroes(lens: seq<nat>, n: nat, l: nat, k: nat)
    requires ZeroFrom(lens, n) && l >= 1 && k <= |lens|
    ensures Count(lens, l, k) == Count(lens[..n], l, Min(k, n))
  {
    if k > 0 {
      CountZeroes(lens, n, l, k - 1);
    }
  }

  lemma {:induction false} BelowZeroes(lens: seq<nat>, n: nat, l: nat)
    requires ZeroFrom(lens, n) && 1 <= l <= MAXBITS + 1
    ensures Below(lens, l) == Below(lens[..n], l)
  {
    hide Count;
    if l > 1 {
      BelowZeroes(lens, n, l - 1);
      CountZeroes(lens, n, l - 1, |lens|);
    }
  }

  lemma {:induction false} FirstCodeZeroes(lens: seq<nat>, n: nat, l: nat)
    requires ZeroFrom(lens, n) && 1 <= l <= MAXBITS
    ensures FirstCode(lens, l) == FirstCode(lens[..n], l)
  {
    hide Count;
    if l > 1 {
      FirstCodeZeroes(lens, n, l - 1);
      CountZeroes(lens, n, l - 1, |lens|);
    }
  }

  /** Dropping unused symbols at the end changes neither the Kraft sum nor a codeword. */
  lemma SameCode(lens: seq<nat>, n: nat, k: nat)
    requires ZeroFrom(lens, n) && Coded(lens, k)
    ensures k < n && Coded(lens[..n], k) && SentCode(lens, k) == SentCode(lens[..n], k)
  {
    hide Count, FirstCode, Reverse;
    FirstCodeZeroes(lens, n, lens[k]);
    CountZeroes(lens, n, lens[k], k);
  }

  // ---------- built trees ----------

  lemma BuiltCanonical(stat: StaticDesc, freq: seq<nat>, fc: seq<nat>, dl: seq<nat>, m: int)
    requires stat.elems <= |freq| == |fc| == |dl| && TreeBuilt(stat, freq, fc, dl, m)
    ensures Canonical(Tree(fc, dl), stat.elems, stat.elems)
  {
    hide Kraft, SentCode, Pow2;
    forall k: nat | k < stat.elems && HasCode(Tree(fc, dl), k)
      ensures fc[k] == SentCode(dl[..stat.elems], k)
    {
      assert dl[..stat.elems][k] == dl[k];
    }
  }

  /** The guard behind the last used length is no code. */
  lemma GuardedCanonical(stat: StaticDesc, freq: seq<nat>, fc: seq<nat>, dl: seq<nat>, m: int)
    requires stat.elems <= |freq| == |fc| == |dl| && TreeBuilt(stat, freq, fc, dl, m) && m + 1 < |dl|
    ensures Canonical(Tree(fc, dl[m + 1 := GUARD]), m + 1, stat.elems)
  {
    hide Below, SentCode, Pow2;
    var lens, n := dl[..stat.elems], m + 1;
    var t := Tree(fc, dl[m + 1 := GUARD]);
    assert ZeroFrom(lens, n);
    BelowZeroes(lens, n, MAXBITS + 1);
    assert lens[..n] == t.len[..n];
    forall k: nat | k < stat.elems && HasCode(t, k)
      ensures k < n && t.code[k] == SentCode(t.len[..n], k)
    {
      assert lens[k] == dl[k];
      SameCode(lens, n, k);
    }
  }
}
