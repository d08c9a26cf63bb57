/** What a sequence of literals and matches stands for. */
module Lz77 {
  import opened Arithmetic
  import opened BlockSymbols

  const MIN_MATCH: nat := 3

  /** The output after copying `n` bytes from `dist` bytes back, one after the other. */
  function Copy(out: seq<Byte>, dist: nat, n: nat): (r: seq<Byte>)
    requires 1 <= dist <= |out|
    ensures |r| == |out| + n && out <= r
  {
    if n == 0 then out
    else
      var r := Copy(out, dist, n - 1);
      r + [r[|r| - dist]]
  }

  /** Every distance reaches back into what was put out before. */
  predicate Expandable(syms: seq<Symbol>)
    decreases |syms|, 0
  {
    if syms == [] then true
    else
      var front, s := syms[..|syms| - 1], syms[|syms| - 1];
      && Expandable(front) && ValidSymbol(s)
      && (s.Match? ==> s.dist <= |Expand(front)|)
  }

  /** The bytes that the symbols stand for. */
  function Expand(syms: seq<Symbol>): seq<Byte>
    requires Expandable(syms)
    decreases |syms|, 1
  {
    if syms == [] then []
    else
      var out := Expand(syms[..|syms| - 1]);
      match syms[|syms| - 1]
      case Literal(c) => out + [c]
      case Match(dist, lc) => Copy(out, dist, lc + MIN_MATCH)
  }

  /** The symbols stand for the first `n` bytes of the input. */
  ghost predicate Covers(syms: seq<Symbol>, input: seq<Byte>, n: nat) {
    n <= |input| && Expandable(syms) && Expand(syms) == input[..n]
  }

  lemma CoversLiteral(syms: seq<Symbol>, input: seq<Byte>, n: nat)
    requires Covers(syms, input, n) && n < |input|
    ensures Covers(syms + [Literal(input[n])], input, n + 1)
  {
    var all := syms + [Literal(input[n])];
    assert all[..|all| - 1] == syms;
    assert input[..n + 1] == input[..n] + [input[n]];
  }

  /** The `len` bytes at `n` repeat what is `dist` bytes before them. */
  predicate Repeats(input: seq<Byte>, n: nat, dist: nat, len: nat) {
    1 <= dist <= n && n + len <= |input| && forall k :: n <= k < n + len ==> input[k] == input[k - dist]
  }

  lemma {:induction false} CopyRepeats(input: seq<Byte>, n: nat, dist: nat, len: nat)
    requires Repeats(input, n, dist, len)
    ensures Copy(input[..n], dist, len) == input[..n + len]
  {
    if len > 0 {
      CopyRepeats(input, n, dist, len - 1);
      assert input[..n + len] == input[..n + len - 1] + [input[n + len - 1]];
    }
  }

  /** A match that repeats earlier bytes stands for them, overlapping or not. */
  lemma CoversMatch(syms: seq<Symbol>, input: seq<Byte>, n: nat, dist: nat, len: nat)
    requires Covers(syms, input, n) && Repeats(input, n, dist, len) && MIN_MATCH <= len <= 258 && dist <= 0x8000
    ensures Covers(syms + [Match(dist, len - MIN_MATCH)], input, n + len)
  {
    var all := syms + [Match(dist, len - MIN_MATCH)];
    assert all[..|all| - 1] == syms;
    CopyRepeats(input, n, dist, len);
  }

  /** More input does not change what is covered. */
  lemma CoversMore(syms: seq<Symbol>, input: seq<Byte>, more: seq<Byte>, n: nat)
    requires Covers(syms, input, n)
    ensures Covers(syms, input + more, n)
  {
    assert (input + more)[..n] == input[..n];
  }

  lemma CoversPrefix(syms: seq<Symbol>, input: seq<Byte>, input': seq<Byte>, n: nat)
    requires Covers(syms, input, n) && input <= input'
    ensures Covers(syms, input', n)
  {
    assert input' == input + input'[|input|..];
    CoversMore(syms, input, input'[|input|..], n);
  }

  /** The symbols before others are expandable too, and stand for the beginning. */
  lemma {:induction false} FrontExpands(a: seq<Symbol>, b: seq<Symbol>)
    requires Expandable(a + b)
    ensures Expandable(a) && Expand(a) <= Expand(a + b)
  {
    if b == [] {
      assert a + b == a;
    } else {
      var all := a + b;
      assert all[..|all| - 1] == a + b[..|b| - 1];
      FrontExpands(a, b[..|b| - 1]);
    }
  }

  /** All symbols that can be expanded are valid. */
  lemma SymbolValid(a: seq<Symbol>, s: Symbol, b: seq<Symbol>)
    requires Expandable(a + [s] + b)
    ensures ValidSymbol(s)
  {
    FrontExpands(a + [s], b);
    assert (a + [s])[..|a|] == a;
  }

  /** Bytes as literals. */
  function Literals(data: seq<Byte>): seq<Symbol> {
    if data == [] then [] else Literals(data[..|data| - 1]) + [Literal(data[|data| - 1])]
  }

  /** One more literal. */
  lemma LiteralExpands(syms: seq<Symbol>, b: Byte)
    requires Expandable(syms)
    ensures Expandable(syms + [Literal(b)]) && Expand(syms + [Literal(b)]) == Expand(syms) + [b]
  {
    var all := syms + [Literal(b)];
    assert all[..|all| - 1] == syms && all[|all| - 1] == Literal(b);
  }

  /** Literals stand for their bytes. */
  lemma {:induction false} LiteralsExpand(syms: seq<Symbol>, data: seq<Byte>)
    requires Expandable(syms)
    ensures Expandable(syms + Literals(data)) && Expand(syms + Literals(data)) == Expand(syms) + data
  {
    hide Expandable, Expand;
    if data == [] {
      assert syms + Literals(data) == syms && Expand(syms) + data == Expand(syms);
    } else {
      var front, b := data[..|data| - 1], data[|data| - 1];
      LiteralsExpand(syms, front);
      LiteralExpands(syms + Literals(front), b);
      assert syms + Literals(data) == syms + Literals(front) + [Literal(b)];
      assert Expand(syms) + front + [b] == Expand(syms) + data;
    }
  }
}
