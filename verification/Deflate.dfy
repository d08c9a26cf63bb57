/** Finding matches over a sliding window (zlib's deflate.c). */
module Deflate {
  import opened Arithmetic
  import opened BlockSymbols
  import opened Lz77
  import opened MatchSearch
  import Bits
  import BlockStream
  import Encoder
  import WordCompare

  const MIN_LOOKAHEAD: nat := 262
  const WIN_INIT: nat := 258
  const U32: nat := 0x1_0000_0000

  datatype Flush = NoFlush | OtherFlush | Finish

  datatype Strategy = DefaultStrategy | Filtered | HuffmanOnly | Rle | Fixed

  datatype BlockState = NeedMore | BlockDone | FinishStarted | FinishDone

  /** An entry of the dictionary is empty, or a position before `bound` whose own link was written. */
  predicate Entry(v: nat, linked: seq<bool>, bound: nat)
    requires |linked| > 0
  {
    v == NIL || (v < bound && linked[v % |linked|])
  }

  /**
    The heads of the hash chains are positions before `bound`, and the links that were written lead to
    positions before `prevBound`. Nothing is known of the links that were never written.
   */
  predicate Chains(head: seq<nat>, prev: seq<nat>, linked: seq<bool>, bound: nat, prevBound: nat) {
    && 0 < |linked| == |prev|
    && (forall i :: 0 <= i < |head| ==> Entry(head[i], linked, bound))
    && (forall i :: 0 <= i < |prev| && linked[i] ==> Entry(prev[i], linked, prevBound))
  }

  /**
    Which bytes of the window were ever stored to: all the data, none from `mark` on, and below `mark` all but
    perhaps some that follow the data and reach to the middle of the window.
   */
  predicate Tracks(stored: seq<bool>, data: nat, mark: nat, w: nat) {
    && data <= mark <= |stored| && w <= |stored|
    && (forall i :: 0 <= i < data ==> stored[i])
    && (forall i :: mark <= i < |stored| ==> !stored[i])
    && (forall i :: data <= i < mark && !stored[i] ==> i < w <= mark && !stored[w - 1])
  }

  /** The window holds the input from `base` on. */
  predicate Holds(window: seq<Byte>, input: seq<Byte>, base: nat, n: nat) {
    && n <= |window| && base + n <= |input|
    && forall i :: 0 <= i < n ==> window[i] == input[base + i]
  }

  /** Equal bytes in the window are a repetition in the input. */
  lemma SameRepeats(window: seq<Byte>, input: seq<Byte>, base: nat, n: nat, match_: nat, scan: nat, len: nat)
    requires Holds(window, input, base, n) && SameBytes(window, match_, scan, len) && scan + len <= n
    ensures Repeats(input, base + scan, scan - match_, len)
  {
    forall k | base + scan <= k < base + scan + len
      ensures input[k] == input[k - (scan - match_)]
    {
      var i := k - base;
      assert window[i] == input[base + i] && window[i - (scan - match_)] == input[base + (i - (scan - match_))];
    }
  }

  /** Matches have at least four bytes, at most 258, and a bounded distance. */
  ghost predicate Within(syms: seq<Symbol>, maxDist: int) {
    forall i :: 0 <= i < |syms| && syms[i].Match? ==>
      ACTUAL_MIN_MATCH <= syms[i].lc + MIN_MATCH <= MAX_MATCH && syms[i].dist <= maxDist
  }

  lemma RepeatsMore(input: seq<Byte>, more: seq<Byte>, n: nat, dist: nat, len: nat)
    requires Repeats(input, n, dist, len)
    ensures Repeats(input + more, n, dist, len)
  {
  }

  /** The window after its upper half was moved to the lower one. */
  lemma HoldsSlid(window: seq<Byte>, window': seq<Byte>, input: seq<Byte>, base: nat, n: nat, w: nat)
    requires Holds(window, input, base, n) && w <= n <= 2 * w <= |window| == |window'|
    requires forall i :: 0 <= i < w ==> window'[i] == window[w + i]
    ensures Holds(window', input, base + w, n - w)
  {
    forall i | 0 <= i < n - w
      ensures window'[i] == input[base + w + i]
    {
      assert window[w + i] == input[base + (w + i)];
    }
  }

  lemma HoldsMore(window: seq<Byte>, window': seq<Byte>, input: seq<Byte>, base: nat, n: nat, data: seq<Byte>)
    requires Holds(window, input, base, n) && base + n == |input| && n + |data| <= |window| == |window'|
    requires forall i :: 0 <= i < n ==> window'[i] == window[i]
    requires forall i :: n <= i < n + |data| ==> window'[i] == data[i - n]
    ensures Holds(window', input + data, base, n + |data|)
  {
  }

  /** How hard a level tries. */
  datatype Config = Config(good: nat, lazy: nat, nice: nat, chain: nat)

  function ConfigOf(level: nat): (c: Config)
    requires level <= 9
  {
    match level
    case 0 => Config(0, 0, 0, 0)
    case 1 => Config(4, 4, 8, 4)
    case 2 => Config(4, 5, 16, 8)
    case 3 => Config(4, 6, 32, 32)
    case 4 => Config(4, 4, 16, 16)
    case 5 => Config(8, 16, 32, 32)
    case 6 => Config(8, 16, 128, 128)
    case 7 => Config(8, 32, 128, 256)
    case 8 => Config(32, 128, 258, 1024)
    case _ => Config(32, 258, 258, 4096)
  }

  lemma WindowSizes(windowBits: nat, memLevel: nat)
    requires 9 <= windowBits <= 15 && 1 <= memLevel <= 9
    ensures 512 <= Pow2(windowBits) <= 0x8000 && 128 <= Pow2(memLevel + 6) <= 0x8000
    ensures windowBits <= memLevel + 6 ==> Pow2(windowBits) <= Pow2(memLevel + 6)
  {
    if windowBits <= memLevel + 6 {
      Pow2Monotone(windowBits, memLevel + 6);
    }
    Pow2Monotone(9, windowBits);
    Pow2Monotone(windowBits, 15);
    Pow2Monotone(7, memLevel + 6);
    Pow2Monotone(memLevel + 6, 15);
    assert Pow2(7) == 128 && Pow2(9) == 512 && Pow2(15) == 0x8000;
  }

  /** What is remembered of the state in which a call began. */
  datatype Start = Start(base: nat, high: nat, total: nat, readUnstored: bool, initialised: bool, gap: bool)

  /** The part of the compressor's state that finding matches uses. */
  class Compressor {
    const wSize: nat
    const window: array<Byte>
    const head: array<nat>
    const prev: array<nat>
    const symEnd: nat
    const coder: Encoder.Encoder
    const maxChainLength: nat
    const maxLazyMatch: nat
    const goodMatch: nat
    const niceMatch: nat
    const level: nat
    const strategy: Strategy
    const hash: Hash
    var strstart: nat
    var lookahead: nat
    var matchStart: nat
    var matchLength: nat
    var prevMatch: nat
    var prevLength: nat
    var matchAvailable: bool
    var insert: nat
    var highWater: nat
    var blockStart: int
    var syms: seq<Symbol>
    var nextIn: seq<Byte>
    ghost var emitted: seq<Symbol>
    ghost var base: nat
    ghost var linked: seq<bool>
    ghost var stored: seq<bool>
    ghost var readUnstored: bool
    ghost var prescribed: bool
    ghost var input: seq<Byte>

    /** A compressor for a new stream; only the heads of the chains are cleared (deflateInit2_, lm_init). */
    constructor (level: nat, windowBits: nat, memLevel: nat, strategy: Strategy, hash: Hash)
      requires level <= 9 && 9 <= windowBits <= 15 && 1 <= memLevel <= 9
      ensures Valid() && Sound(0) && FastState() && SlowState() && Initialised() && !matchAvailable
      ensures Apart() && Coding() && coder.blocks == []
      ensures emitted == [] && syms == [] && strstart == 0 && lookahead == 0 && blockStart == 0
      ensures highWater == 0 && base == 0 && !readUnstored && prescribed
                && (level > 0 || windowBits <= memLevel + 6 ==> Copyable())
      ensures Config(goodMatch, maxLazyMatch, niceMatch, maxChainLength) == ConfigOf(level) && MaxDist() == wSize - 262
      ensures input == [] && nextIn == [] && this.level == level && this.strategy == strategy
                && this.hash == hash && wSize == Pow2(windowBits) && head.Length == Pow2(memLevel + 7)
      ensures fresh(window) && fresh(head) && fresh(prev) && fresh(coder.Repr)
    {
      hide Pow2, Encoder.Encoder.Open, Chains, Tracks, Holds, Covers, Within, Holding, Right,
           Initialised;
      WindowSizes(windowBits, memLevel);
      var config, w := ConfigOf(level), Pow2(windowBits);
      var matchAt: nat :| matchAt < U32;
      wSize, window, prev, head := w, new Byte[2 * w], new nat[w], new nat[Pow2(memLevel + 7)](_ => NIL);
      symEnd, this.level, this.strategy, this.hash := Pow2(memLevel + 6) - 1, level, strategy, hash;
      goodMatch, maxLazyMatch, niceMatch, maxChainLength := config.good, config.lazy, config.nice, config.chain;
      strstart, lookahead, blockStart, insert, highWater := 0, 0, 0, 0, 0;
      matchLength, prevLength, matchStart, prevMatch, matchAvailable := ACTUAL_MIN_MATCH - 1, ACTUAL_MIN_MATCH - 1,
          matchAt, *, false;
      syms, nextIn, base, input, emitted, readUnstored, prescribed := [], [], 0, [], [], false, true;
      linked, stored := seq(w, _ => false), seq(2 * w, _ => false);
      coder := new Encoder.Encoder(memLevel);
      new;
      NothingYet(window[..], head[..], prev[..], linked, stored, w);
      Begins();
    }

    /** Before any input everything holds. */
    lemma Begins()
      requires Sizes() && strstart == 0 && lookahead == 0 && blockStart == 0 && insert == 0 && highWater == 0
                && base == 0
      requires input == [] && emitted == [] && syms == [] && matchStart < U32 && |stored| == window.Length
      requires Holds(window[..], [], 0, 0) && Chains(head[..], prev[..], linked, 0, 0) && Tracks(stored, 0, 0, wSize)
      requires Covers([], [], 0) && forall maxDist: int :: Within([], maxDist)
      ensures Valid() && Sound(0) && Initialised()
    {
      hide Chains, Tracks, Holds, Covers, Within;
      assert emitted + syms == [];
    }

    function MaxDist(): int {
      wSize - MIN_LOOKAHEAD
    }

    predicate Sizes() {
      && 512 <= wSize <= 0x8000 && window.Length == 2 * wSize && prev.Length == wSize && head.Length > 0 && head != prev
      && (head as object) != (window as object) && (prev as object) != (window as object) && 0 < symEnd < 0x8000
    }

    /**
      The window holds the input, the chains only hold positions before `bound`, and `stored` says which of
      the window's bytes below `mark` were ever stored to.
     */
    ghost predicate Holding(bound: nat, mark: nat)
      reads `strstart, `lookahead, `insert, `base, `input, `matchStart, `highWater, `linked, `stored, `syms, window,
            head, prev
    {
      && Sizes() && strstart + lookahead <= window.Length && insert <= 3 && insert <= strstart
      && base + strstart + lookahead == |input| && Holds(window[..], input, base, strstart + lookahead)
      && Chains(head[..], prev[..], linked, bound, bound) && matchStart < U32 && highWater <= window.Length
      && |stored| == window.Length && Tracks(stored, strstart + lookahead, mark, wSize) && |syms| <= symEnd
    }

    /** The data do not reach beyond the high water mark. */
    ghost predicate Full(bound: nat)
      reads `strstart, `lookahead, `insert, `base, `input, `matchStart, `highWater, `linked, `stored, `syms, window,
            head, prev
    {
      Holding(bound, highWater) && strstart + lookahead <= highWater
    }

    /** While the window is being filled, the data may reach beyond the high water mark. */
    ghost predicate Loose()
      reads `strstart, `lookahead, `insert, `base, `input, `matchStart, `highWater, `linked, `stored, `syms, window,
            head, prev
    {
      Holding(strstart, Max(highWater, strstart + lookahead)) && |syms| < symEnd
    }

    /** The state between two symbols: there is room for another one in the block. */
    ghost predicate Valid()
      reads `strstart, `lookahead, `insert, `base, `input, `matchStart, `highWater, `linked, `stored, `syms, window,
            head, prev
    {
      Full(strstart) && |syms| < symEnd
    }

    /** The blocks so far stand for the input before the current block, which begins at `blockStart`. */
    ghost predicate Begun()
      reads `base, `blockStart, `emitted, `input
    {
      base + blockStart >= 0 && Covers(emitted, input, base + blockStart)
    }

    /** The symbols so far stand for the first `n` bytes of the input, and their matches are within the bounds. */
    ghost predicate Right(n: int)
      reads `base, `blockStart, `emitted, `input, `syms
    {
      n >= 0 && Covers(emitted + syms, input, n) && Within(emitted + syms, MaxDist()) && Begun()
    }

    /** The symbols so far stand for the input up to `pending` bytes before the current position. */
    ghost predicate Sound(pending: nat)
      reads `base, `blockStart, `emitted, `input, `syms, `strstart
    {
      base + strstart >= pending && Right(base + strstart - pending)
    }

    /**
      There is enough room behind the current position to look for a match, and all that a search reads is below the
      high water mark.
     */
    ghost predicate Ready()
      reads `strstart, `lookahead, `highWater
    {
      strstart + MIN_LOOKAHEAD <= window.Length && (lookahead >= ACTUAL_MIN_MATCH ==>
          strstart + MAX_MATCH + 2 <= highWater)
    }

    /** Every byte below the high water mark was stored to. */
    ghost predicate Initialised()
      requires highWater <= |stored|
      reads `highWater, `stored
    {
      forall i :: 0 <= i < highWater ==> stored[i]
    }

    /** The bytes in the middle of the window are below the high water mark but were never stored to. */
    ghost predicate Gap()
      reads `highWater, `stored
    {
      wSize <= highWater && 0 < wSize <= |stored| && !stored[wSize - 1]
    }

    // ---------- the dictionary ----------

    /** The heads and the links of the chains. */
    ghost function Dictionary(): (d: Dict)
      reads head, prev
      ensures |d.head| == head.Length && |d.prev| == prev.Length
    {
      Dict(head[..], prev[..])
    }

    /** The chain of the four bytes at `p`. */
    function KeyAt(p: nat): (h: nat)
      requires p + 4 <= window.Length && head.Length > 0
      reads window
      ensures h < head.Length && h == Key(hash, window[..], p, head.Length)
    {
      hash(window[p], window[p + 1], window[p + 2], window[p + 3]) % head.Length
    }

    /** The dictionary after `n` positions from `from` on were entered. */
    ghost function Entered(d: Dict, from: nat, n: nat): (r: Dict)
      requires |d.head| > 0 && |d.prev| > 0 && (n > 0 ==> from + n + 3 <= window.Length)
      reads window
      ensures |r.head| == |d.head| && |r.prev| == |d.prev|
    {
      EnterAll(hash, window[..], d, from, n)
    }

    /** Enters a position in the dictionary (insert_string) and returns the chain's former head. */
    method InsertString(str: nat, ghost bound: nat) returns (matchHead: nat)
      requires Sizes() && str + 4 <= window.Length && Chains(head[..], prev[..], linked, bound, bound)
      modifies head, prev, `linked
      ensures matchHead == old(head[KeyAt(str)]) && Dictionary() == Enter(old(Dictionary()), KeyAt(str), str)
      ensures window[..] == old(window[..]) && linked == old(linked)[str % wSize := true]
      ensures Chains(head[..], prev[..], linked, Max(bound, str + 1), bound)
      ensures matchHead == NIL || (matchHead < bound && linked[matchHead % wSize])
    {
      hide Chains, KeyAt;
      ghost var head0, prev0, w := head[..], prev[..], window[..];
      var h := KeyAt(str);
      ChainsInserted(head0, prev0, linked, bound, h, str);
      matchHead := head[h];
      prev[str % wSize] := matchHead;
      head[h] := str;
      linked := linked[str % wSize := true];
      assert head[..] == head0[h := str] && prev[..] == prev0[str % wSize := matchHead] && window[..] == w;
    }

    /** Enters `count` positions from `startpos` on. */
    method BulkInsert(startpos: nat, count: nat)
      requires Sizes() && startpos + count + 3 <= window.Length
                && Chains(head[..], prev[..], linked, startpos, startpos)
      modifies head, prev, `linked
      ensures Chains(head[..], prev[..], linked, startpos + count, startpos + count)
      ensures Dictionary() == Entered(old(Dictionary()), startpos, count) && window[..] == old(window[..])
    {
      hide Chains, KeyAt, Enter, Key;
      var idx := 0;
      while idx < count
        invariant 0 <= idx <= count && Chains(head[..], prev[..], linked, startpos + idx, startpos + idx)
        invariant Dictionary() == Entered(old(Dictionary()), startpos, idx) && window[..] == old(window[..])
      {
        var m := InsertString(startpos + idx, startpos + idx);
        ChainsMore(head[..], prev[..], linked, startpos + idx + 1, startpos + idx, startpos + idx + 1);
        idx := idx + 1;
      }
    }

    // ---------- matches ----------

    /** How many bytes at `scan` and `m` are equal, if the first four are; eight bytes are compared at once. */
    method CompareWords(scan: nat, m: nat) returns (len: nat)
      requires m < scan && scan + MAX_MATCH + 2 <= window.Length && window[scan..scan + 4] == window[m..m + 4]
      ensures 4 <= len && len == Extent(window[..], m, scan)
    {
      hide Bits.Xor, WordCompare.WordOf, WordCompare.TrailingZeros, WordCompare.EqualBytes, SameBytes, Extent;
      ghost var w := window[..];
      SameStart(w, m, scan);
      var off := 4;
      while off < MAX_MATCH
        invariant 4 <= off <= MAX_MATCH + 2 && (off - 4) % 8 == 0 && SameBytes(w, m, scan, off)
        decreases MAX_MATCH + 8 - off
      {
        var sv, mv := window[scan + off..scan + off + 8], window[m + off..m + off + 8];
        var x := Bits.Xor(WordCompare.WordOf(sv), WordCompare.WordOf(mv), 64);
        WordCompare.FirstDifference(sv, mv);
        WordBytes(w, m, scan, off, sv, mv);
        if x != 0 {
          off := off + WordCompare.TrailingZeros(x) / 8;
          break;
        }
        off := off + 8;
      }
      len := if off > MAX_MATCH then MAX_MATCH else off;
      SameLess(w, m, scan, off, len);
      ExtentIs(w, m, scan, len);
    }

    /** Whether the candidate cannot be longer than the best match, or does not even begin alike. */
    predicate Unlike(m: nat, scan: nat, best: nat)
      requires 3 <= best <= MAX_MATCH && m < scan && scan + best + 1 <= window.Length && scan + 4 <= window.Length
      reads window
    {
      window[m + best - 3..m + best + 1] != window[scan + best - 3..scan + best + 1]
          || window[m..m + 4] != window[scan..scan + 4]
    }

    /** The position may be a match's start: not too far back. */
    predicate InReach(m: nat)
      reads `strstart
    {
      1 <= m < strstart && strstart - m <= MaxDist()
    }

    /** A position on a hash chain that is in reach. */
    ghost predicate Candidate(m: nat)
      reads `strstart, `linked
    {
      InReach(m) && |linked| == wSize > 0 && linked[m % wSize]
    }

    /** A match at the current position. */
    predicate Matches(m: nat, len: nat)
      reads `strstart, window
    {
      InReach(m) && len <= MAX_MATCH && SameBytes(window[..], m, strstart, len)
    }

    /** The rounds that a search may still take. */
    function Rounds(chain: nat): nat {
      if chain == 0 then U32 else chain
    }

    /** Candidates must lie beyond this position. */
    function Limit(): nat
      reads `strstart
    {
      if strstart > MaxDist() then strstart - MaxDist() else NIL
    }

    /** The next candidate on the chain, if it is in reach and the chain is not yet too long. */
    method NextMatch(cur: nat, limit: nat, chain: nat) returns (more: bool, cur': nat, chain': nat)
      requires Sizes() && Candidate(cur) && Chains(head[..], prev[..], linked, strstart + 1, strstart)
      requires limit == Limit() && chain < U32
      ensures more <==> Rounds(chain) > 1 && prev[cur % wSize] > limit
      ensures more ==> Candidate(cur') && chain' < U32 && Rounds(chain') == Rounds(chain) - 1
      ensures more ==> cur' == prev[cur % wSize]
    {
      assert Entry(prev[..][cur % wSize], linked, strstart);
      cur', chain' := prev[cur % wSize], chain;
      more := cur' > limit;
      if more {
        chain' := (chain - 1) % U32;
        more := chain' != 0;
      }
    }

    /** What a search gives that has come to the candidate `cur`. */
    ghost function Rest(cur: nat, chain: nat, best: Finding): Finding
      reads `strstart, `lookahead, window, prev
    {
      SearchFrom(window[..], prev[..], strstart, cur, Limit(), Rounds(chain), best, Min(niceMatch, lookahead))
    }

    /** Follows the chain to the next candidate that may be longer than the best match. */
    method SkipUnlike(cur: nat, limit: nat, chain: nat, bestLen: nat) returns (cont: bool, cur': nat, chain': nat)
      requires Sizes() && Candidate(cur) && Chains(head[..], prev[..], linked, strstart + 1, strstart) && chain < U32
      requires limit == Limit() && 3 <= bestLen <= MAX_MATCH && strstart + MAX_MATCH + 2 <= window.Length
      ensures cont ==> Candidate(cur') && chain' < U32 && Rounds(chain') <= Rounds(chain)
      ensures cont ==> window[cur'..cur' + 4] == window[strstart..strstart + 4]
      ensures forall start: nat :: var best := Finding(start, bestLen);
                Rest(cur, chain, best) == if cont then Rest(cur', chain', best) else best
    {
      hide Chains, SearchFrom, Extent, Rest;
      cont, cur', chain' := true, cur, chain;
      while true
        invariant Candidate(cur') && chain' < U32 && Rounds(chain') <= Rounds(chain) && cont
        invariant forall start: nat ::
                    Rest(cur, chain, Finding(start, bestLen)) == Rest(cur', chain', Finding(start, bestLen))
        decreases Rounds(chain')
      {
        if Unlike(cur', strstart, bestLen) {
          ghost var at, before := cur', chain';
          cont, cur', chain' := NextMatch(cur', limit, chain');
          SkipOne(at, before, bestLen, cont, cur', chain');
          if cont {
            continue;
          }
        }
        break;
      }
    }

    /** A candidate that begins unlike changes nothing. */
    lemma SkipOne(at: nat, chain: nat, bestLen: nat, more: bool, next: nat, chain': nat)
      requires Sizes() && at < strstart && 3 <= bestLen <= MAX_MATCH && strstart + MAX_MATCH + 2 <= window.Length
      requires Unlike(at, strstart, bestLen) && (more <==> Rounds(chain) > 1 && prev[at % wSize] > Limit())
      requires more ==> next == prev[at % wSize] && Rounds(chain') == Rounds(chain) - 1
      ensures forall start: nat :: var best := Finding(start, bestLen);
                Rest(at, chain, best) == if more then Rest(next, chain', best) else best
    {
      hide SearchFrom, Extent;
      UnlikeIsNoBetter(window[..], at, strstart, bestLen);
      forall start: nat
        ensures var best := Finding(start, bestLen);
                Rest(at, chain, best) == if more then Rest(next, chain', best) else best
      {
        SearchOne(window[..], prev[..], strstart, at, Limit(), Rounds(chain), Finding(start, bestLen),
                  Min(niceMatch, lookahead));
      }
    }

    /** A candidate whose extent is known. */
    lemma TryOne(at: nat, chain: nat, best: Finding, len: nat)
      requires Sizes() && len == Extent(window[..], at, strstart)
      ensures var better := if len <= best.len then best else Finding(at, len);
              Rest(at, chain, best) ==
              if len > best.len && len >= Min(niceMatch, lookahead) then better
              else if Rounds(chain) > 1 && prev[at % wSize] > Limit() then
                SearchFrom(window[..], prev[..], strstart, prev[at % wSize], Limit(), Rounds(chain) - 1, better,
                       Min(niceMatch, lookahead))
              else better
    {
      hide SearchFrom, Extent;
      SearchOne(window[..], prev[..], strstart, at, Limit(), Rounds(chain), best, Min(niceMatch, lookahead));
    }

    /** How many rounds the chain is followed; few, if there is a good match already. */
    function Budget(prevLen: nat): nat
    {
      if prevLen >= goodMatch then maxChainLength / 4 else maxChainLength
    }

    /** What a search from `cur` finds that is longer than `prevLen`. */
    ghost function FoundFrom(cur: nat, prevLen: nat): Finding
      reads `strstart, `lookahead, window, prev
    {
      Rest(cur, Budget(prevLen), Finding(NIL, prevLen))
    }

    /** Takes the candidate if it is longer than the best match; `done` says whether it is long enough to stop at. */
    method Improve(cur: nat, bestLen: nat, nice: nat, ghost chain: nat, ghost start: nat)
      returns (len: nat, done: bool)
      requires Sizes() && Candidate(cur) && strstart + MAX_MATCH + 2 <= window.Length && matchStart < U32
      requires window[cur..cur + 4] == window[strstart..strstart + 4] && nice == Min(niceMatch, lookahead)
      modifies `matchStart
      ensures bestLen <= len && (bestLen <= MAX_MATCH ==> len <= MAX_MATCH) && matchStart < U32
      ensures len > bestLen ==> Matches(matchStart, len)
      ensures matchStart == if len > bestLen then cur else old(matchStart)
      ensures var better := Finding(if len > bestLen then cur else start, len);
              Rest(cur, chain, Finding(start, bestLen)) ==
              if done then better
              else if Rounds(chain) > 1 && prev[cur % wSize] > Limit() then
                SearchFrom(window[..], prev[..], strstart, prev[cur % wSize], Limit(), Rounds(chain) - 1, better, nice)
              else better
    {
      hide SameBytes, SearchFrom, Extent, Rest;
      len := CompareWords(strstart, cur);
      done := false;
      TryOne(cur, chain, Finding(start, bestLen), len);
      ExtentSame(window[..], cur, strstart);
      if len > bestLen {
        matchStart := cur;
        done := len >= nice;
      } else {
        len := bestLen;
      }
    }

    /**
      The longest match at the current position along the chain, if it is longer than `prevLength`: no candidate up to
      the first that is long enough to stop at is longer, as far as the lookahead goes, and the byte behind it differs.
     */
    method LongestMatch(curMatch: nat) returns (length: nat)
      requires Sizes() && Candidate(curMatch) && strstart + lookahead <= window.Length
                && strstart + MAX_MATCH + 2 <= window.Length
      requires Chains(head[..], prev[..], linked, strstart + 1, strstart) && 3 <= prevLength <= MAX_MATCH
                && matchStart < U32 && maxChainLength < U32
      modifies `matchStart
      ensures length <= lookahead && length <= MAX_MATCH && length >= Min(prevLength, lookahead) && matchStart < U32
      ensures length > prevLength ==> Matches(matchStart, length)
      ensures var r := FoundFrom(curMatch, prevLength);
              && length == Min(r.len, lookahead) && r.len >= prevLength
              && matchStart == if r.len > prevLength then r.start else old(matchStart)
    {
      hide SameBytes, Chains, SearchFrom, Extent, Rest;
      var chainLength: nat, bestLen: nat := maxChainLength, prevLength;
      var limit: nat := if strstart > MaxDist() then strstart - MaxDist() else NIL;
      if prevLength >= goodMatch {
        chainLength := chainLength / 4;
      }
      var nice := Min(niceMatch, lookahead);
      var cur: nat := curMatch;
      ghost var start: nat := NIL;
      var more := true;
      while more
        invariant more ==> Candidate(cur) && chainLength < U32
        invariant prevLength <= bestLen <= MAX_MATCH && matchStart < U32
        invariant bestLen > prevLength ==> Matches(matchStart, bestLen)
        invariant matchStart == if bestLen > prevLength then start else old(matchStart)
        invariant FoundFrom(curMatch, prevLength) ==
                  if more then Rest(cur, chainLength, Finding(start, bestLen)) else Finding(start, bestLen)
        decreases more, Rounds(chainLength)
      {
        more, cur, chainLength, bestLen, start := TryNext(cur, limit, chainLength, bestLen, nice, start);
      }
      length := Min(bestLen, lookahead);
      if bestLen > prevLength {
        SameLess(window[..], matchStart, strstart, bestLen, length);
      }
    }

    /** One round of the search: the next candidate that may be longer, and the link from it. */
    method TryNext(cur: nat, limit: nat, chain: nat, bestLen: nat, nice: nat, ghost start: nat)
      returns (more: bool, cur': nat, chain': nat, len: nat, ghost start': nat)
      requires Sizes() && Candidate(cur) && Chains(head[..], prev[..], linked, strstart + 1, strstart) && chain < U32
      requires limit == Limit() && 3 <= bestLen <= MAX_MATCH && strstart + MAX_MATCH + 2 <= window.Length
      requires nice == Min(niceMatch, lookahead) && matchStart < U32
      modifies `matchStart
      ensures more ==> Candidate(cur') && chain' < U32 && Rounds(chain') < Rounds(chain)
      ensures bestLen <= len <= MAX_MATCH && matchStart < U32
      ensures len > bestLen ==> matchStart == start' && Matches(matchStart, len)
      ensures len == bestLen ==> matchStart == old(matchStart) && start' == start
      ensures Rest(cur, chain, Finding(start, bestLen)) ==
              if more then Rest(cur', chain', Finding(start', len)) else Finding(start', len)
    {
      hide SameBytes, Chains, SearchFrom, Extent, Rest;
      more, cur', chain' := SkipUnlike(cur, limit, chain, bestLen);
      len, start' := bestLen, start;
      if more {
        var done;
        len, done := Improve(cur', bestLen, nice, chain', start);
        if len > bestLen {
          start' := cur';
        }
        more := !done;
        if more {
          more, cur', chain' := NextMatch(cur', limit, chain');
          if more {
            RestIs(cur', chain', Finding(start', len));
          }
        }
      }
    }

    /** None of the candidates is long enough to stop at. */
    ghost predicate NoneNice(c: seq<nat>)
      reads `strstart, `lookahead, window
    {
      forall j :: 0 <= j < |c| ==> Extent(window[..], c[j], strstart) < Min(niceMatch, lookahead)
    }

    /**
      What a search finds, in terms of the window and the chain: it is at least as long as any match at the candidates
      up to the first that is long enough to stop at; if it is longer than `prevLen` it is one of the candidates,
          all its
      bytes are equal, and the next one is not.
     */
    lemma SearchIsLongest(cur: nat, prevLen: nat)
      requires Sizes() && strstart + MAX_MATCH <= window.Length
      ensures var c := Candidates(prev[..], cur, Limit(), Rounds(Budget(prevLen)));
              var r := FoundFrom(cur, prevLen);
              && (forall k: nat, len: nat :: k < |c| && NoneNice(c[..k]) && Matches(c[k], len) ==> len <= r.len)
              && (r.len > prevLen ==>
                    && r.start in c && r.len == Extent(window[..], r.start, strstart)
                    && SameBytes(window[..], r.start, strstart, r.len)
                    && (r.len < MAX_MATCH ==> window[r.start + r.len] != window[strstart + r.len]))
    {
      hide Extent, SameBytes, Longest, Candidates;
      ghost var w := window[..];
      var c := Candidates(prev[..], cur, Limit(), Rounds(Budget(prevLen)));
      var r, nice, best := FoundFrom(cur, prevLen), Min(niceMatch, lookahead), Finding(NIL, prevLen);
      forall k: nat, len: nat | k < |c| && NoneNice(c[..k]) && Matches(c[k], len)
        ensures len <= r.len
      {
        assert forall j :: 0 <= j < k ==> c[..k][j] == c[j];
        LongestIsLongest(w, strstart, c, best, nice, k);
        ExtentMost(w, c[k], strstart, len);
      }
      LongestIsCandidate(w, strstart, c, best, nice);
      if r.len > prevLen {
        ExtentPositive(w, r.start, strstart);
        ExtentSame(w, r.start, strstart);
      }
    }

    lemma RestIs(cur: nat, chain: nat, best: Finding)
      ensures Rest(cur, chain, best) ==
              SearchFrom(window[..], prev[..], strstart, cur, Limit(), Rounds(chain), best, Min(niceMatch, lookahead))
    {
    }

    // ---------- the sliding window ----------

    /** Lowers every entry of a chain by `w`; positions that fall out of the window become empty. */
    static method LowerChain(chain: array<nat>, w: nat)
      modifies chain
      ensures forall i :: 0 <= i < chain.Length ==> chain[i] == Max(old(chain[i]) - w, NIL)
    {
      var i := 0;
      while i < chain.Length
        invariant 0 <= i <= chain.Length
        invariant forall k :: 0 <= k < chain.Length ==>
                  chain[k] == if k < i then Max(old(chain[k]) - w, NIL) else old(chain[k])
      {
        chain[i] := if chain[i] >= w then chain[i] - w else NIL;
        i := i + 1;
      }
    }

    /** Lowers all positions by the half of the window that falls out. */
    method LowerPositions()
      requires Sizes() && strstart >= wSize && Chains(head[..], prev[..], linked, strstart, strstart)
      modifies head, prev, `strstart, `matchStart, `blockStart, `base
      ensures strstart == old(strstart) - wSize && base == old(base) + wSize
      ensures matchStart == (old(matchStart) - wSize) % U32 && blockStart == old(blockStart) - wSize
      ensures Dictionary() == Lowered(old(Dictionary()), wSize)
      ensures Chains(head[..], prev[..], linked, strstart, strstart)
    {
      hide Chains;
      ghost var head0, prev0 := head[..], prev[..];
      LowerChain(head, wSize);
      LowerChain(prev, wSize);
      ChainsLowered(head0, prev0, linked, strstart, head[..], prev[..]);
      LoweredIs(Dict(head0, prev0), wSize, head[..], prev[..]);
      matchStart := (matchStart - wSize) % U32;
      strstart := strstart - wSize;
      blockStart := blockStart - wSize;
      base := base + wSize;
    }

    /** Moves the upper half of the window to the lower one, and all positions with it. */
    method Slide()
      requires Loose() && strstart >= wSize + MaxDist() && strstart + lookahead <= highWater
      modifies window, head, prev, `strstart, `matchStart, `blockStart, `base, `stored
      ensures Loose() && strstart == old(strstart) - wSize && base == old(base) + wSize
      ensures matchStart == (old(matchStart) - wSize) % U32 && blockStart == old(blockStart) - wSize
      ensures Dictionary() == Lowered(old(Dictionary()), wSize) && insert == old(insert)
      ensures stored == old(stored[wSize..] + stored[wSize..])
    {
      hide Chains, Tracks, Holds;
      ghost var w0, h0, p0, n := window[..], head[..], prev[..], strstart + lookahead;
      forall i | 0 <= i < wSize {
        window[i] := window[wSize + i];
      }
      assert head[..] == h0 && prev[..] == p0;
      HoldsSlid(w0, window[..], input, base, n, wSize);
      TracksSlid(stored, n, highWater, wSize);
      stored := stored[wSize..] + stored[wSize..];
      ghost var w1 := window[..];
      LowerPositions();
      assert window[..] == w1;
    }

    /** Copies `data` into the window from `at` on. */
    method StoreBytes(at: nat, data: seq<Byte>)
      requires Sizes() && at + |data| <= window.Length == |stored|
      modifies window, `stored
      ensures forall i :: 0 <= i < at ==> window[i] == old(window[i])
      ensures forall i :: at <= i < at + |data| ==> window[i] == data[i - at]
      ensures stored == StoredAt(old(stored), at, |data|) && head[..] == old(head[..]) && prev[..] == old(prev[..])
    {
      forall i | at <= i < at + |data| {
        window[i] := data[i - at];
      }
      stored := StoredAt(stored, at, |data|);
    }

    /** Counts `n` bytes of input as read. */
    method TakeInput(n: nat)
      requires n <= |nextIn|
      modifies `lookahead, `nextIn, `input
      ensures lookahead == old(lookahead) + n && input == old(input + nextIn[..n]) && nextIn == old(nextIn[n..])
      ensures input + nextIn == old(input + nextIn)
    {
      input := input + nextIn[..n];
      nextIn := nextIn[n..];
      lookahead := lookahead + n;
    }

    /** Reads as much input as there is and as fits (read_buf). */
    method ReadBuf(more: nat)
      requires Loose() && strstart + lookahead + more == window.Length
      modifies window, `lookahead, `nextIn, `stored, `input
      ensures Loose() && lookahead == old(lookahead) + Min(more, |old(nextIn)|)
                && |nextIn| == |old(nextIn)| - Min(more, |old(nextIn)|)
      ensures input + nextIn == old(input + nextIn) && old(input) <= input
      ensures stored[wSize - 1] <==> old(stored[wSize - 1]) || strstart + lookahead >= wSize
      ensures Dictionary() == old(Dictionary())
    {
      hide Chains, Holds, Tracks, StoredAt;
      var n, at := Min(more, |nextIn|), strstart + lookahead;
      ghost var w0 := window[..];
      TracksRead(stored, at, n, highWater, wSize);
      StoreBytes(at, nextIn[..n]);
      HoldsMore(w0, window[..], input, base, at, nextIn[..n]);
      TakeInput(n);
    }

    /** How many of the positions before the current one that are to be entered have enough bytes behind them. */
    function Pendings(): (n: nat)
      reads this
      ensures n <= insert
    {
      if lookahead + insert >= ACTUAL_MIN_MATCH then Min(insert, lookahead + insert - (ACTUAL_MIN_MATCH - 1)) else 0
    }

    /** Enters the last positions before the current one, as far as they now have enough bytes behind them. */
    method InsertPending()
      requires Loose()
      modifies head, prev, `insert, `linked
      ensures Loose() && window[..] == old(window[..]) && insert == old(insert) - old(Pendings())
      ensures Dictionary() == Entered(old(Dictionary()), strstart - old(insert), old(Pendings()))
    {
      hide Chains, Tracks, Holds, KeyAt, Key, Enter;
      if lookahead + insert >= ACTUAL_MIN_MATCH {
        var str := strstart - insert;
        while insert > 0
          invariant insert <= old(insert) && str == strstart - insert && Loose() && window[..] == old(window[..])
          invariant lookahead + insert >= ACTUAL_MIN_MATCH
          invariant Dictionary() == Entered(old(Dictionary()), strstart - old(insert), old(insert) - insert)
          decreases insert
        {
          ghost var w := window[..];
          var m := InsertString(str, strstart);
          str := str + 1;
          insert := insert - 1;
          if lookahead + insert < ACTUAL_MIN_MATCH {
            break;
          }
        }
      }
    }

    /**
      The dictionary is `d` with the positions entered that were pending, of `ins` ones before the current position.
     */
    ghost predicate Kept(d: Dict, ins: nat)
      reads `strstart, `lookahead, `insert, window, head, prev
    {
      && ins <= strstart && strstart + lookahead <= window.Length && |d.head| > 0 && |d.prev| > 0
      && var n := if lookahead + ins >= ACTUAL_MIN_MATCH then Min(ins, lookahead + ins - (ACTUAL_MIN_MATCH - 1)) else 0;
         insert == ins - n && Dictionary() == Entered(d, strstart - ins, n)
    }

    /** Zeroes bytes from `at` on. */
    method Zero(at: nat, n: nat)
      requires at + n <= window.Length == |stored|
      modifies window, `stored
      ensures forall i :: 0 <= i < at ==> window[i] == old(window[i])
      ensures forall i :: at <= i < at + n ==> window[i] == 0
      ensures stored == StoredAt(old(stored), at, n)
    {
      forall i | at <= i < at + n {
        window[i] := 0;
      }
      stored := StoredAt(stored, at, n);
    }

    /** Zeroes bytes behind the data, up to where searches may read. */
    method RaiseHighWater()
      requires Loose()
      modifies window, `highWater, `stored
      ensures Valid() && highWater == Max(old(highWater), Min(strstart + lookahead + WIN_INIT, window.Length))
      ensures Gap() <==> old(Gap())
      ensures forall i :: Max(old(highWater), strstart + lookahead) <= i < highWater ==> window[i] == 0
      ensures Dictionary() == old(Dictionary())
      ensures forall i :: 0 <= i < strstart + lookahead ==> window[i] == old(window[i])
    {
      hide Chains, Holds, Tracks, StoredAt;
      ghost var w0 := window[..];
      var curr := strstart + lookahead;
      TracksZeroed(stored, curr, highWater, wSize);
      if highWater < window.Length {
        if highWater < curr {
          var init := Min(window.Length - curr, WIN_INIT);
          Zero(curr, init);
          highWater := curr + init;
        } else if highWater < curr + WIN_INIT {
          var init := Min(curr + WIN_INIT - highWater, window.Length - highWater);
          Zero(highWater, init);
          highWater := highWater + init;
        }
      }
      HoldsSame(w0, window[..], input, base, curr);
    }

    /** How far back the current match is, in 32 bits. */
    function Distance(): int
      reads `strstart, `matchStart
    {
      (strstart - matchStart) % U32
    }

    /** What filling the window keeps: the stream, the current position in it, and how far back the last match lies. */
    twostate predicate Filled()
      reads this
    {
      && input + nextIn == old(input + nextIn) && old(input) <= input
      && base + strstart == old(base + strstart) && base + blockStart == old(base + blockStart)
      && Distance() == old(Distance())
      && matchLength == old(matchLength) && prevLength == old(prevLength) && matchAvailable == old(matchAvailable)
      && prevMatch == old(prevMatch) && syms == old(syms) && emitted == old(emitted)
      && (strstart >= old(strstart) || strstart >= MaxDist())
    }

    /** The window is almost full. */
    predicate MustSlide()
      reads `strstart
    {
      strstart >= wSize + MaxDist()
    }

    /** Slides the window when it is almost full; the result is the room behind the data. */
    method MakeRoom() returns (more: nat)
      requires Loose() && (MustSlide() ==> strstart + lookahead <= highWater)
      modifies window, head, prev, `strstart, `matchStart, `blockStart, `base, `stored
      ensures Loose() && more == window.Length - lookahead - strstart && strstart < wSize + MaxDist()
      ensures strstart == old(strstart) - (if old(MustSlide()) then wSize else 0)
      ensures stored[wSize - 1] <==> if old(MustSlide()) then old(stored[window.Length - 1]) else old(stored[wSize - 1])
      ensures base + strstart == old(base + strstart) && base + blockStart == old(base + blockStart)
      ensures Distance() == old(Distance())
      ensures strstart >= old(strstart) || strstart >= MaxDist()
      ensures Dictionary() == if old(MustSlide()) then Lowered(old(Dictionary()), wSize) else old(Dictionary())
    {
      hide Holds, Chains, Tracks, Lowered;
      more := window.Length - lookahead - strstart;
      if strstart >= wSize + MaxDist() {
        ghost var s0, m0 := strstart, matchStart;
        Slide();
        SameDistance(s0, m0, wSize);
        more := more + wSize;
      }
    }

    /** Where the data end after filling, and whether the byte in the middle of the window was stored to by then. */
    twostate predicate Refilled()
      reads this
    {
      && strstart + lookahead == Min(window.Length, old(strstart + lookahead + |nextIn|)
         - (if old(MustSlide()) then wSize else 0))
      && base == old(base) + (if old(MustSlide()) then wSize else 0)
      && 0 < wSize <= |stored| && wSize <= old(|stored|) && (old(MustSlide()) ==> window.Length == old(|stored|))
      && (stored[wSize - 1] <==>
          || (if old(MustSlide()) then old(stored[window.Length - 1]) else old(stored[wSize - 1]))
          || strstart + lookahead >= wSize)
    }

    /** Reads input, if there is any, and enters the positions that were pending. */
    method ReadMore(more: nat)
      requires Loose() && strstart + lookahead + more == window.Length
      modifies window, head, prev, `lookahead, `insert, `nextIn, `stored, `linked, `input
      ensures Loose() && lookahead == old(lookahead) + Min(more, |old(nextIn)|)
                && |nextIn| == |old(nextIn)| - Min(more, |old(nextIn)|)
      ensures input + nextIn == old(input + nextIn) && old(input) <= input
      ensures stored[wSize - 1] <==> old(stored[wSize - 1]) || strstart + lookahead >= wSize
      ensures Kept(old(Dictionary()), old(insert))
    {
      hide Holds, Chains, Tracks, Entered;
      ReadBuf(more);
      InsertPending();
    }

    /**
      The dictionary after filling the window: lowered if the window was slid, and with what was pending if it was
      read.
     */
    ghost predicate Carried(d: Dict, ins: nat, slid: bool, read: bool)
      reads `strstart, `lookahead, `insert, window, head, prev
    {
      var e := if slid then Lowered(d, wSize) else d;
      if read then Kept(e, ins) else Dictionary() == e && insert == ins
    }

    /** One round of filling: makes room, reads, and enters the positions that were pending. */
    method FillOnce() returns (done: bool)
      requires Loose() && lookahead < MIN_LOOKAHEAD && (MustSlide() ==> strstart + lookahead <= highWater)
      modifies window, head, prev, `strstart, `lookahead, `matchStart, `insert, `blockStart, `nextIn, `base, `stored,
               `linked, `input
      ensures Loose() && Filled() && Refilled() && strstart < wSize + MaxDist() && lookahead >= old(lookahead)
      ensures done ==> nextIn == []
      ensures !done ==> |nextIn| < |old(nextIn)|
      ensures nextIn == [] || lookahead >= MIN_LOOKAHEAD
      ensures Carried(old(Dictionary()), old(insert), old(MustSlide()), old(nextIn) != [])
    {
      hide Holds, Chains, Tracks, Distance, Kept, Lowered;
      var more := MakeRoom();
      done := nextIn == [];
      if !done {
        ReadMore(more);
      } else {
        TracksData(stored, strstart + lookahead, Max(highWater, strstart + lookahead), wSize);
      }
    }

    /** Fills the window until there is enough lookahead or no more input; one round is always enough. */
    method FillRounds()
      requires Valid() && lookahead < MIN_LOOKAHEAD
      modifies window, head, prev, `strstart, `lookahead, `matchStart, `insert, `blockStart, `nextIn, `base, `stored,
               `linked, `input
      ensures Loose() && Filled() && Refilled() && strstart < wSize + MaxDist() && lookahead >= old(lookahead)
      ensures lookahead < MIN_LOOKAHEAD ==> nextIn == []
      ensures Carried(old(Dictionary()), old(insert), old(MustSlide()), old(nextIn) != [])
    {
      hide Holds, Chains, Tracks, Carried, Lowered;
      var first := true;
      while first || (lookahead < MIN_LOOKAHEAD && nextIn != [])
        invariant first ==> unchanged(this, window, head, prev)
        invariant !first ==>
                    Loose() && Filled() && Refilled() && strstart < wSize + MaxDist() && lookahead >= old(lookahead)
        invariant !first ==> nextIn == [] || lookahead >= MIN_LOOKAHEAD
        invariant !first ==> Carried(old(Dictionary()), old(insert), old(MustSlide()), old(nextIn) != [])
        decreases if first then 1 else 0, |nextIn|
      {
        first := false;
        var done := FillOnce();
        if done {
          break;
        }
      }
    }

    /** Raising the high water mark does not touch what the dictionary is made from. */
    method RaiseMark(ghost d: Dict, ghost ins: nat, ghost slid: bool, ghost read: bool)
      requires Loose() && Carried(d, ins, slid, read)
      modifies window, `highWater, `stored
      ensures Valid() && highWater == Max(old(highWater), Min(strstart + lookahead + WIN_INIT, window.Length))
      ensures Gap() <==> old(Gap())
      ensures forall i :: Max(old(highWater), strstart + lookahead) <= i < highWater ==> window[i] == 0
      ensures Carried(d, ins, slid, read)
    {
      hide Chains, Holds, Tracks, Lowered, EnterAll;
      ghost var w := window[..];
      RaiseHighWater();
      if read {
        var n := if lookahead + ins >= ACTUAL_MIN_MATCH then Min(ins, lookahead + ins - (ACTUAL_MIN_MATCH - 1)) else 0;
        EnterSame(hash, w, window[..], if slid then Lowered(d, wSize) else d, strstart - ins, n);
      }
    }

    /**
      Fills the window with input, sliding it when it is almost full. All bytes below the high water mark were
      stored to afterwards, if and only if they were before or the data reach beyond the middle now, except that
      a slide while the mark is not at the window's end leaves bytes that were not.
     */
    method FillWindow()
      requires Valid() && lookahead < MIN_LOOKAHEAD
      modifies window, head, prev, `strstart, `lookahead, `matchStart, `insert, `highWater, `blockStart, `nextIn,
               `base, `stored, `linked, `input
      ensures Valid() && Filled() && Ready() && lookahead >= old(lookahead)
      ensures lookahead < MIN_LOOKAHEAD ==> nextIn == []
      ensures highWater == Max(old(highWater), Min(strstart + lookahead + WIN_INIT, window.Length))
      ensures strstart + lookahead == Min(window.Length,
                old(strstart + lookahead + |nextIn|) - (if old(MustSlide()) then wSize else 0))
      ensures base == old(base) + (if old(MustSlide()) then wSize else 0) && strstart < wSize + MaxDist()
      ensures Initialised() <==>
              || old(strstart + lookahead + |nextIn|) >= (if old(MustSlide()) then window.Length else wSize)
              || (old(Initialised()) && !(old(MustSlide()) && old(highWater) < window.Length))
      ensures forall i :: Max(old(highWater), strstart + lookahead) <= i < highWater ==> window[i] == 0
      ensures Carried(old(Dictionary()), old(insert), old(MustSlide()), old(nextIn) != [])
    {
      hide Holds, Chains, Tracks, Initialised, Carried;
      InitialisedGap();
      HighWaterTop();
      FillRounds();
      RaiseMark(old(Dictionary()), old(insert), old(MustSlide()), old(nextIn) != []);
      InitialisedGap();
    }

    /**
      The only bytes below the high water mark that may not have been stored to lie between the data and the middle of
      the window.
     */
    lemma InitialisedGap()
      requires Full(strstart)
      ensures Initialised() <==> !Gap()
    {
    }

    /** What a search reads was stored to, if everything below the high water mark was. */
    lemma ReadsStored()
      requires Full(strstart) && Ready() && lookahead >= ACTUAL_MIN_MATCH && Initialised()
      ensures forall i :: 0 <= i < strstart + MAX_MATCH + 2 ==> stored[i]
    {
    }

    /** When the window is almost full, its last byte was stored to just when the mark is at its end. */
    lemma HighWaterTop()
      requires Full(strstart)
      ensures stored[window.Length - 1] <==> highWater == window.Length
      ensures MustSlide() ==> stored[wSize - 1] && highWater >= wSize
    {
    }

    // ---------- symbols ----------

    /** Records a literal; the result says whether the block must be flushed. */
    method TallyLit(c: Byte) returns (bflush: bool)
      requires |syms| < symEnd
      modifies `syms
      ensures syms == old(syms) + [Literal(c)] && (bflush <==> |syms| == symEnd)
    {
      syms := syms + [Literal(c)];
      bflush := |syms| == symEnd;
    }

    /** Records a match, with the distance and the length cut to 16 and 8 bits. */
    method TallyDist(distance: int, lc: int) returns (bflush: bool)
      requires |syms| < symEnd
      modifies `syms
      ensures syms == old(syms) + [Match(distance % 0x1_0000, lc % 0x100)] && (bflush <==> |syms| == symEnd)
    {
      syms := syms + [Match(distance % 0x1_0000, lc % 0x100)];
      bflush := |syms| == symEnd;
    }

    // ---------- blocks ----------

    /** The parts of the encoder are none of the compressor's own. */
    ghost predicate Apart() {
      coder in coder.Repr && this !in coder.Repr && window !in coder.Repr && head !in coder.Repr && prev !in coder.Repr
    }

    /** The input is copied without looking at it. */
    predicate Copying() {
      level == 0 && strategy != HuffmanOnly && strategy != Rle
    }

    /** Whatever bytes of the window are copied, the pending buffer can take them. */
    predicate Copyable() {
      level == 0 ==> 2 * wSize + 6 <= 4 * (symEnd + 1)
    }

    /** The encoder has written out the blocks so far, and is ready for the next one. */
    ghost predicate Coding()
      reads `emitted, coder, coder.Repr, coder.w
    {
      && coder.Open() && coder.done == emitted && symEnd == coder.litBufsize - 1 && (Copying() ==> coder.OnByte())
      && (level > 0 ==> BlockStream.AllBest(coder.blocks, strategy == Fixed))
    }

    /** The encoder has written out the last block. */
    ghost predicate Finished()
      reads `emitted, coder
    {
      && coder.Ended() && coder.done == emitted
      && (level > 0 ==> BlockStream.AllBest(coder.blocks, strategy == Fixed))
    }

    /** Whether the last block was written out by the time that a function of a level returns. */
    ghost predicate Coded(state: BlockState)
      reads `emitted, coder, coder.Repr, coder.w
    {
      if state.NeedMore? || state.BlockDone? then Coding() else Finished()
    }

    /** The most bytes in a stored block of level 0: what its length can say, and what the pending buffer can take. */
    function MaxBlockSize(): int {
      Min(0xffff, 4 * (symEnd + 1) - 5)
    }

    /** The bytes of the current block, if they are all still in the window, are not too many for a stored block. */
    predicate Short()
      reads `blockStart, `strstart
    {
      blockStart >= 0 ==> strstart - blockStart < 0x1_0000
    }

    /** If they are copied, the pending buffer can take them. */
    predicate Fitting()
      reads `blockStart, `strstart
    {
      level == 0 && blockStart >= 0 ==> strstart - blockStart + 6 <= 4 * (symEnd + 1)
    }

    /** The current block can be written out: it has all symbols up to the current position, or the bytes to copy. */
    ghost predicate Flushable()
      reads `base, `blockStart, `emitted, `input, `syms, `strstart
    {
      if Copying() then
        syms == [] && 0 <= blockStart <= strstart && strstart - blockStart <= MaxBlockSize() && Right(base + blockStart)
      else Right(base + strstart) && Short() && Fitting()
    }

    /** The bytes of the current block are those that the symbols stand for, behind the blocks before. */
    lemma BlockBytes(w: seq<Byte>)
      requires Holds(w, input, base, strstart + lookahead) && Flushable()
      ensures blockStart <= strstart <= |w| && Expandable(emitted) && Expandable(emitted + syms)
      ensures var data := if blockStart >= 0 then w[blockStart..strstart] else [];
              var block := Encoder.Stands(level == 0 && blockStart >= 0, syms, data);
              && Covers(emitted + block, input, base + strstart) && Within(emitted + block, MaxDist())
              && Expandable(emitted + block)
              && (blockStart >= 0 ==> |data| < 0x1_0000 && Expand(emitted + block) == Expand(emitted) + data)
    {
      hide Expandable, Expand;
      var from, to := base + blockStart, base + strstart;
      assert emitted + [] == emitted;
      FrontExpands(emitted, syms);
      if blockStart >= 0 {
        var data := w[blockStart..strstart];
        assert data == input[from..to];
        assert input[..to] == input[..from] + data;
        if level == 0 {
          LiteralsExpand(emitted, data);
          assert emitted == (emitted + syms)[..|emitted|];
          LiteralsWithin(emitted, data, MaxDist());
        }
      }
    }

    /**
      Writes out the block, with its bytes if they are all still in the window (FLUSH_BLOCK_ONLY); whether the output
      is full afterwards is up to the caller of the compressor.
     */
    method FlushBlock(last: nat) returns (full: bool)
      requires Apart() && Coding() && Flushable() && Holds(window[..], input, base, strstart + lookahead)
      requires |syms| <= symEnd && last <= 1
      modifies `syms, `emitted, `blockStart, coder.Repr
      ensures syms == [] && blockStart == strstart && Right(base + strstart)
      ensures |coder.blocks| == |old(coder.blocks)| + 1
      ensures level > 0 ==>
                BlockStream.Best(coder.blocks[|coder.blocks| - 1], old(blockStart) >= 0, strategy == Fixed)
      ensures if last == 0 then Coding() else Finished()
    {
      hide Covers, Within, Holds, Encoder.Encoder.Open, Encoder.Encoder.Ended, Expandable, Expand,
           Encoder.Stands, BlockStream.Best, BlockStream.AllBest;
      BlockBytes(window[..]);
      var hasBuf := blockStart >= 0;
      var data := if hasBuf then window[blockStart..strstart] else [];
      ghost var before := coder.blocks;
      coder.WriteBlock(syms, data, hasBuf, level, strategy == Fixed, last);
      if level > 0 {
        BlockStream.BestMore(before, coder.blocks, hasBuf, strategy == Fixed);
      }
      emitted := emitted + Encoder.Stands(level == 0 && hasBuf, syms, data);
      syms := [];
      assert emitted + syms == emitted;
      blockStart := strstart;
      full := *;
    }

    // ---------- the strategies ----------

    /** The stream of input is the same, read further. */
    twostate predicate SameStream()
      reads this
    {
      input + nextIn == old(input + nextIn) && old(input) <= input
    }

    /** How much of the input is still ahead. */
    ghost function Ahead(): int
      reads `input, `nextIn, `base, `strstart
    {
      |input| + |nextIn| - base - strstart
    }

    // ---------- which symbol is to be recorded ----------

    function ByteAt(i: int): Byte
      reads window
    {
      if 0 <= i < window.Length then window[i] else 0
    }

    /** The current position was entered, if enough bytes follow it; then its link leads to the candidates. */
    ghost predicate Current()
      reads `strstart, `lookahead, window, head
    {
      lookahead >= ACTUAL_MIN_MATCH ==>
          strstart + 4 <= window.Length && head.Length > 0 && head[KeyAt(strstart)] == strstart
    }

    /** What the search finds that begins at the current position's link, with its length cut to the lookahead. */
    ghost function Sought(prevLen: nat): Finding
      reads `strstart, `lookahead, window, prev
    {
      var first := if lookahead >= ACTUAL_MIN_MATCH && prev.Length == wSize > 0 then prev[strstart % wSize] else NIL;
      if first != NIL && strstart - first <= MaxDist() then
        Finding(FoundFrom(first, prevLen).start, Min(FoundFrom(first, prevLen).len, lookahead))
      else Finding(NIL, ACTUAL_MIN_MATCH - 1)
    }

    /** DeflateFast: the longest match, or a literal. */
    ghost function FastChoice(): Symbol
      reads `strstart, `lookahead, window, prev
    {
      var f := Sought(ACTUAL_MIN_MATCH - 1);
      if f.len >= ACTUAL_MIN_MATCH then Match(Max(strstart - f.start, 0), f.len - MIN_MATCH)
          else Literal(ByteAt(strstart))
    }

    /**
      DeflateSlow: how long a match is at the current position, if it is worth looking for a longer one than before.
     */
    ghost function LazyLength(): nat
      reads `strstart, `lookahead, `prevLength, window, prev
    {
      var f := Sought(prevLength);
      if prevLength >= maxLazyMatch || (f.len <= 5 && strategy == Filtered) then ACTUAL_MIN_MATCH - 1 else f.len
    }

    /** DeflateSlow: the match that begins one byte before, unless there is a longer one now, or that byte. */
    ghost function SlowChoice(): Symbol
      reads `strstart, `lookahead, `matchLength, `prevLength, `prevMatch, window
    {
      if prevLength >= ACTUAL_MIN_MATCH && matchLength <= prevLength && lookahead > 0 then
        Match((strstart - 1 - prevMatch) % U32, prevLength - MIN_MATCH)
      else Literal(ByteAt(strstart - 1))
    }

    /** DeflateRle: a run of the byte before, or a literal. */
    ghost function RunChoice(): Symbol
      reads `strstart, `lookahead, window
    {
      var n := if strstart > 0 then Min(Extent(window[..], strstart - 1, strstart), lookahead) else 0;
      if n >= ACTUAL_MIN_MATCH then Match(1, n - MIN_MATCH) else Literal(ByteAt(strstart))
    }

    /** The symbol is the one that the strategy or the level prescribes here. */
    ghost predicate Prescribes(s: Symbol)
      reads `strstart, `lookahead, `matchLength, `prevLength, `prevMatch, window, head, prev
    {
      if strategy == HuffmanOnly then s == Literal(ByteAt(strstart))
      else if strategy == Rle then s == RunChoice()
      else if level <= 3 then Current() && s == FastChoice()
      else s == SlowChoice() && (lookahead > 0 ==> Current() && matchLength == LazyLength())
    }

    /** Records the byte at `at` as a literal. */
    method EmitLiteral(at: nat, ghost pending: nat) returns (bflush: bool)
      requires Holds(window[..], input, base, strstart + lookahead) && |syms| < symEnd
      requires Sound(pending) && at + pending == strstart && at < strstart + lookahead
      modifies `syms, `prescribed
      ensures |syms| == |old(syms)| + 1 && (bflush <==> |syms| == symEnd)
      ensures Right(base + at + 1)
      ensures prescribed == old(prescribed && Prescribes(Literal(window[at])))
    {
      hide Covers, Within, Prescribes;
      prescribed := prescribed && Prescribes(Literal(window[at]));
      ghost var all := emitted + syms;
      CoversLiteral(all, input, base + at);
      bflush := TallyLit(window[at]);
      assert window[..][at] == input[base + at];
      assert emitted + syms == all + [Literal(input[base + at])];
      WithinMore(all, Literal(input[base + at]), MaxDist());
    }

    /** Records a match of length `len` at `at` with a distance that is right in 32 bits. */
    method EmitMatch(at: nat, distance: nat, len: nat, ghost pending: nat) returns (bflush: bool)
      requires |syms| < symEnd && Sound(pending) && at + pending == strstart && Sizes()
      requires ACTUAL_MIN_MATCH <= len <= MAX_MATCH && distance <= MaxDist() && Repeats(input, base + at, distance, len)
      modifies `syms, `prescribed
      ensures |syms| <= symEnd && (bflush <==> |syms| == symEnd)
      ensures Right(base + at + len)
      ensures syms == old(syms) + [Match(distance, len - MIN_MATCH)]
      ensures prescribed == old(prescribed && Prescribes(Match(distance, len - MIN_MATCH)))
    {
      hide Covers, Within, Repeats, Prescribes;
      prescribed := prescribed && Prescribes(Match(distance, len - MIN_MATCH));
      ghost var all := emitted + syms;
      CoversMatch(all, input, base + at, distance, len);
      bflush := TallyDist(distance, len - MIN_MATCH);
      assert emitted + syms == all + [Match(distance, len - MIN_MATCH)];
      WithinMore(all, Match(distance, len - MIN_MATCH), MaxDist());
    }

    /**
      How often the byte before the current position is repeated, eight comparisons at a time; `last` is the last
      position that is read. Shorter runs than three do not count.
     */
    method FindRun() returns (len: nat, ghost last: nat)
      requires strstart > 0 && strstart + MAX_MATCH < window.Length
      ensures strstart <= last <= strstart + MAX_MATCH && SameBytes(window[..], strstart - 1, strstart, last - strstart)
      ensures last - strstart == Extent(window[..], strstart - 1, strstart)
      ensures last < strstart + MAX_MATCH ==> window[last] != window[strstart - 1]
      ensures len == if last < strstart + 3 then 0 else last - strstart
      ensures if len == 0 then !SameBytes(window[..], strstart - 1, strstart, 3)
              else 3 <= len <= MAX_MATCH && SameBytes(window[..], strstart - 1, strstart, len)
                   && (len < MAX_MATCH ==> window[strstart + len] != window[strstart - 1])
    {
      hide Extent;
      len := 0;
      var scan := strstart - 1;
      var prevByte := window[scan];
      last := if prevByte != window[scan + 1] then scan + 1
              else if prevByte != window[scan + 2] then scan + 2 else scan + 3;
      if prevByte == window[scan + 1] && prevByte == window[scan + 2] && prevByte == window[scan + 3] {
        scan := scan + 3;
        var strend := strstart + MAX_MATCH;
        var same := true;
        while same && scan < strend
          invariant strstart + 2 <= scan <= strend && (same ==>
                    (scan - strstart - 2) % 8 == 0 && window[scan] == prevByte)
          invariant !same ==> window[scan] != prevByte && strstart + 3 <= scan
          invariant forall k :: strstart - 1 <= k < scan ==> window[k] == prevByte
          decreases strend - scan, same
        {
          var k := 0;
          ghost var scan0 := scan;
          while same && k < 8
            invariant 0 <= k <= 8 && strstart + 2 <= scan <= strend
                      && (same ==> (scan - k - strstart - 2) % 8 == 0 && window[scan] == prevByte)
            invariant same && k < 8 ==> scan < strend
            invariant !same ==> window[scan] != prevByte && strstart + 3 <= scan
            invariant scan == scan0 + k
            invariant forall k :: strstart - 1 <= k < scan ==> window[k] == prevByte
            decreases 8 - k, same
          {
            scan := scan + 1;
            same := window[scan] == prevByte;
            k := k + 1;
          }
        }
        len := MAX_MATCH - (strend - scan);
        last := scan;
      }
      ExtentIs(window[..], strstart - 1, strstart, last - strstart);
    }

    /** What filling the window does to the positions, the high water mark and the bytes below it. */
    twostate predicate Marked()
      requires old(highWater <= |stored|) && highWater <= |stored|
      reads this
    {
      && base == old(base) + (if old(MustSlide()) then wSize else 0)
      && strstart + lookahead
         == Min(window.Length, old(strstart + lookahead + |nextIn|) - (if old(MustSlide()) then wSize else 0))
      && highWater == Max(old(highWater), Min(strstart + lookahead + WIN_INIT, window.Length))
      && (old(Initialised()) && (base == old(base) || old(highWater) == window.Length) ==> Initialised())
      && (strstart + lookahead < wSize ==>
            (if old(MustSlide()) then old(highWater) < window.Length else old(Gap())) ==> Gap())
    }

    /** Fills the window; what was covered stays covered. */
    method Refill(ghost pending: nat)
      requires Valid() && Sound(pending) && lookahead < MIN_LOOKAHEAD
      requires Apart() && Coding()
      modifies window, head, prev, `strstart, `lookahead, `matchStart, `insert, `highWater, `blockStart, `nextIn,
               `base, `stored, `linked, `input
      ensures Valid() && Sound(pending) && Filled() && Ready() && lookahead >= old(lookahead)
      ensures lookahead < MIN_LOOKAHEAD ==> nextIn == []
      ensures strstart < wSize + MaxDist() && Marked()
      ensures Coding()
    {
      hide Holds, Chains, Tracks, Covers, Within, Coding;
      ghost var all, before, n := emitted + syms, input, base + strstart - pending;
      ghost var done, from := emitted, base + blockStart;
      InitialisedGap();
      FillWindow();
      InitialisedGap();
      CoversPrefix(all, before, input, n);
      CoversPrefix(done, before, input, from);
    }

    /** The state between recording symbols and flushing: the block may be full. */
    ghost predicate Recorded(pending: nat)
      reads `strstart, `lookahead, `insert, `base, `input, `matchStart, `highWater, `linked, `stored, `syms,
            `blockStart, `emitted, window, head, prev
    {
      Full(strstart) && Sound(pending) && Short()
    }

    /** Nothing but the block has changed. */
    twostate predicate Still()
      reads this
    {
      && strstart == old(strstart) && lookahead == old(lookahead) && base == old(base)
      && input == old(input) && nextIn == old(nextIn)
      && matchStart == old(matchStart) && matchLength == old(matchLength) && prevLength == old(prevLength)
      && matchAvailable == old(matchAvailable)
      && highWater == old(highWater) && stored == old(stored) && readUnstored == old(readUnstored)
         && prescribed == old(prescribed)
    }

    /** Flushes a full block. */
    method FlushIfFull(bflush: bool) returns (full: bool)
      requires Recorded(0) && (bflush <==> |syms| == symEnd) && Apart() && Coding() && !Copying() && Fitting()
      modifies `syms, `emitted, `blockStart, coder.Repr
      ensures Valid() && Sound(0) && Coding() && Still()
      ensures if bflush then syms == [] && blockStart == strstart
              else syms == old(syms) && blockStart == old(blockStart)
      ensures |coder.blocks| == |old(coder.blocks)| + if bflush then 1 else 0
    {
      hide Covers, Within, Holds, Chains, Tracks, Coding, Finished;
      full := false;
      if bflush {
        full := FlushBlock(0);
      }
    }

    /** The end of a run of a strategy: flushes what is left. */
    method FinishRun(flush: Flush, ins: nat) returns (state: BlockState)
      requires Recorded(0) && lookahead == 0 && ins <= 3 && ins <= strstart && Apart() && Coding()
      requires !Copying() && Fitting()
      modifies `syms, `emitted, `blockStart, `insert, coder.Repr
      ensures Valid() && Sound(0) && syms == [] && Coded(state) && Still()
      ensures insert == ins && (state.NeedMore? ==> blockStart == strstart)
      ensures state.NeedMore? ==> old(syms) != []
      ensures |coder.blocks| == |old(coder.blocks)| + if flush.Finish? || old(syms) != [] then 1 else 0
      ensures state.NeedMore? || state.BlockDone? <==> !flush.Finish?
    {
      hide Covers, Within, Holds, Chains, Tracks, Coding, Finished;
      insert := ins;
      if flush == Flush.Finish {
        var full := FlushBlock(1);
        state := if full then FinishStarted else FinishDone;
      } else {
        var full := false;
        if syms != [] {
          full := FlushBlock(0);
        }
        state := if full then NeedMore else BlockDone;
      }
    }

    /** Moves on behind what was just recorded. */
    method Consume(n: nat, ghost pending: nat, ghost bound: nat)
      requires Full(bound) && bound <= strstart + n && n <= lookahead && base + strstart + n >= pending
      requires Right(base + strstart + n - pending) && (blockStart >= 0 ==> strstart + n - blockStart < 0x1_0000)
      modifies `strstart, `lookahead
      ensures Recorded(pending) && strstart == old(strstart) + n && lookahead == old(lookahead) - n
    {
      hide Covers, Within;
      strstart := strstart + n;
      lookahead := lookahead - n;
    }

    /** All bytes that the search for a run may read were stored to. */
    ghost predicate RunStored()
      reads `strstart, `stored
    {
      forall i :: 0 <= i < |stored| && i <= strstart + MAX_MATCH ==> stored[i]
    }

    /** The search for a run goes on to its last position, and the byte there was never stored to. */
    ghost predicate RunUnstored()
      reads `strstart, `stored, window
    {
      && 0 < strstart && strstart + MAX_MATCH < window.Length == |stored| && !stored[strstart + MAX_MATCH]
      && forall k :: strstart <= k < strstart + MAX_MATCH ==> window[k] == window[strstart - 1]
    }

    /** In a run of zeros up to a byte below the high water mark that was never stored to. */
    lemma ZerosUnstored()
      requires Holds(window[..], input, base, strstart + lookahead) && forall k :: 0 <= k < |input| ==> input[k] == 0
      requires 0 < strstart && lookahead == MAX_MATCH && strstart + MAX_MATCH == wSize - 1 && Gap()
      requires wSize <= window.Length == |stored|
      ensures RunUnstored()
    {
    }

    /**
      The run of the byte before that starts here, within the data; notes whether a byte is read that was never
      stored to.
     */
    method RunHere() returns (len: nat)
      requires Valid() && strstart > 0 && strstart + MAX_MATCH < window.Length
      modifies `readUnstored
      ensures len <= MAX_MATCH && len <= lookahead && (len > 0 ==> Repeats(input, base + strstart, 1, len))
      ensures var n := Min(Extent(window[..], strstart - 1, strstart), lookahead); len == n || (len == 0 && n < 3)
      ensures RunStored() ==> readUnstored == old(readUnstored)
      ensures RunUnstored() ==> readUnstored
    {
      hide Chains, Tracks, SameBytes, Holds, Repeats, Extent;
      var run;
      ghost var last;
      run, last := FindRun();
      assert RunUnstored() ==> last == strstart + MAX_MATCH && !stored[last];
      readUnstored := readUnstored || exists i :: strstart - 1 <= i <= last && !stored[i];
      len := Min(run, lookahead);
      if len > 0 {
        SameLess(window[..], strstart - 1, strstart, run, len);
        SameRepeats(window[..], input, base, strstart + lookahead, strstart - 1, strstart, len);
      }
    }

    /** Records the current byte as a literal and moves on. */
    method PutLiteral(ghost bound: nat) returns (bflush: bool)
      requires Full(bound) && bound <= strstart + 1 && |syms| < symEnd && Sound(0) && lookahead > 0
      requires blockStart >= 0 ==> strstart + 1 - blockStart < 0x1_0000
      modifies `syms, `prescribed, `strstart, `lookahead
      ensures Recorded(0) && (bflush <==> |syms| == symEnd) && strstart == old(strstart) + 1
      ensures |syms| == |old(syms)| + 1 && lookahead == old(lookahead) - 1
      ensures prescribed == old(prescribed && Prescribes(Literal(window[strstart])))
    {
      hide Chains, Tracks, Covers, Within, Holds, Prescribes;
      bflush := EmitLiteral(strstart, 0);
      Consume(1, 0, bound);
    }

    /** Records the run that was found as a match and moves behind it. */
    method PutRun() returns (bflush: bool)
      requires Valid() && Sound(0) && ACTUAL_MIN_MATCH <= matchLength <= lookahead && matchLength <= MAX_MATCH
      requires Repeats(input, base + strstart, 1, matchLength) && strstart + MAX_MATCH < window.Length
      modifies `syms, `prescribed, `strstart, `lookahead, `matchLength
      ensures Recorded(0) && (bflush <==> |syms| == symEnd) && strstart == old(strstart + matchLength)
      ensures matchLength == 0 && lookahead == old(lookahead - matchLength)
      ensures prescribed == old(prescribed && Prescribes(Match(1, matchLength - MIN_MATCH)))
    {
      hide Chains, Tracks, Covers, Within, Holds, Repeats, Prescribes;
      bflush := EmitMatch(strstart, 1, matchLength, 0);
      Consume(matchLength, 0, strstart);
      matchLength := 0;
    }

    /** Sets the match length to the run that starts here, if there is one of enough bytes. */
    method RleSearch()
      requires Valid() && Sound(0) && strstart + MAX_MATCH < window.Length
      modifies `matchLength, `readUnstored
      ensures Valid() && Sound(0) && matchLength <= MAX_MATCH && matchLength <= lookahead
      ensures matchLength > 0 ==> Repeats(input, base + strstart, 1, matchLength)
      ensures strategy == Rle ==>
                if matchLength >= ACTUAL_MIN_MATCH then Prescribes(Match(1, matchLength - MIN_MATCH))
                else Prescribes(Literal(ByteAt(strstart)))
      ensures old(lookahead >= ACTUAL_MIN_MATCH ==> RunStored()) ==> readUnstored == old(readUnstored)
      ensures old(lookahead >= ACTUAL_MIN_MATCH && strstart > 0 && RunUnstored()) ==> readUnstored
    {
      hide Chains, Tracks, Covers, Within, SameBytes, Holds, Repeats, RunStored, RunUnstored, Extent;
      matchLength := 0;
      if lookahead >= ACTUAL_MIN_MATCH && strstart > 0 {
        matchLength := RunHere();
      }
    }

    /** One symbol of DeflateRle: a run of the byte before, or a literal. */
    method RleSymbol() returns (bflush: bool)
      requires Valid() && Sound(0) && lookahead > 0 && strstart + MAX_MATCH < window.Length
      modifies `syms, `prescribed, `strstart, `lookahead, `matchLength, `readUnstored
      ensures Recorded(0) && (bflush <==> |syms| == symEnd) && strstart > old(strstart)
      ensures strategy == Rle ==> prescribed == old(prescribed)
      ensures old(lookahead >= ACTUAL_MIN_MATCH ==> RunStored()) ==> readUnstored == old(readUnstored)
      ensures old(lookahead >= ACTUAL_MIN_MATCH && strstart > 0 && RunUnstored()) ==> readUnstored
    {
      hide Chains, Tracks, Covers, Within, Holds, Repeats, RunStored, RunUnstored, Right, Prescribes;
      RleSearch();
      if matchLength >= ACTUAL_MIN_MATCH {
        bflush := PutRun();
      } else {
        bflush := PutLiteral(strstart);
      }
    }

    /** With all bytes below the high water mark stored to, a search for a run reads no others. */
    lemma RunIsStored()
      requires Full(strstart) && (lookahead > MAX_MATCH || Ready()) && Initialised()
      ensures lookahead >= ACTUAL_MIN_MATCH ==> RunStored()
    {
    }

    /** What a call of DeflateRle remembers of the state in which it began. */
    ghost function Now(): Start
      reads this
    {
      Start(base, highWater, |input + nextIn|, readUnstored, highWater <= |stored| && Initialised(), Gap())
    }

    /**
      If all bytes below the high water mark were stored to at the start, and the window was not slid while the mark
      was below its end, this is still so, and no byte was read that was never stored to.
     */
    ghost predicate Clean(start: Start)
      reads `base, `highWater, `stored, `readUnstored
    {
      && highWater <= |stored| && base >= start.base && highWater >= start.high
      && (start.initialised && (base == start.base || start.high == window.Length) ==>
           Initialised() && readUnstored == start.readUnstored)
    }

    /**
      If the bytes ahead were too few to raise the mark to the window's end, the window was not slid since, or once.
      Then there are bytes below the mark that were never stored to, as there are if there were some, and too few bytes
      ahead to reach the middle.
     */
    ghost predicate Harmed(start: Start)
      reads `base, `highWater, `stored, `input, `nextIn
    {
      && |input + nextIn| == start.total
      && (start.total + WIN_INIT < start.base + window.Length && start.high < window.Length ==>
            && highWater < window.Length && (base == start.base || base == start.base + wSize)
            && (base > start.base || (start.gap && start.total < start.base + wSize) ==> Gap()))
    }

    /** What a call of DeflateRle keeps of the state in which it began. */
    ghost predicate Since(start: Start)
      reads `base, `highWater, `stored, `readUnstored, `input, `nextIn
    {
      Clean(start) && Harmed(start)
    }

    /** Refills the window in a call of DeflateRle. */
    method RefillRle(ghost start: Start)
      requires Valid() && Sound(0) && lookahead < MIN_LOOKAHEAD && Since(start)
      requires Apart() && Coding()
      modifies window, head, prev, `strstart, `lookahead, `matchStart, `insert, `highWater, `blockStart, `nextIn,
               `base, `stored, `linked, `input
      ensures Valid() && Sound(0) && Ready() && SameStream() && base + strstart == old(base + strstart)
      ensures syms == old(syms) && strstart < wSize + MaxDist() && (lookahead < MIN_LOOKAHEAD ==> nextIn == [])
      ensures Since(start)
      ensures Coding()
    {
      hide Holds, Chains, Tracks, Covers, Within, Initialised, Gap, Coding;
      Refill(0);
    }

    /** Records a symbol in a call of DeflateRle. */
    method RleStep(ghost start: Start) returns (bflush: bool)
      requires Valid() && Sound(0) && lookahead > 0 && (lookahead > MAX_MATCH || Ready()) && Since(start)
      requires Apart() && Coding()
      modifies `syms, `prescribed, `strstart, `lookahead, `matchLength, `readUnstored
      ensures Recorded(0) && (bflush <==> |syms| == symEnd) && strstart > old(strstart) && Since(start)
      ensures Coding() && (strategy == Rle ==> prescribed == old(prescribed))
    {
      hide Holds, Chains, Tracks, Covers, Within, RunStored, RunUnstored, Coding;
      if Initialised() {
        RunIsStored();
      }
      bflush := RleSymbol();
    }

    /** Progress of a call: bytes were recorded, or there was nothing left to record and the block was written out. */
    twostate predicate Progress(flush: Flush)
      reads this
    {
      Ahead() < old(Ahead()) || (flush.OtherFlush? && Ahead() == old(Ahead()) && |syms| < |old(syms)|)
    }

    /** One round of DeflateRle; `done` says whether the call returns. */
    method RleRound(flush: Flush, ghost start: Start) returns (state: BlockState, done: bool)
      requires Valid() && Sound(0) && Since(start) && Apart() && Coding() && !Copying() && Copyable()
      modifies this, window, head, prev, coder.Repr
      ensures Valid() && Sound(0) && SameStream() && Since(start) && Coded(state)
      ensures strategy == Rle ==> prescribed == old(prescribed)
      ensures !state.NeedMore? ==> insert == 0
      ensures flush.NoFlush? ==> state.NeedMore?
      ensures !done ==> state.NeedMore? && Ahead() < old(Ahead())
      ensures state.NeedMore? && !flush.NoFlush? ==> Progress(flush)
      ensures Ahead() <= old(Ahead()) && (Ahead() == old(Ahead()) ==> syms == old(syms) || syms == [])
      ensures !state.NeedMore? ==>
                && nextIn == [] && lookahead == 0 && syms == [] && strstart < wSize + MaxDist()
                && (state.BlockDone? <==> !flush.Finish?)
    {
      hide Holds, Chains, Tracks, Covers, Within, Coding, Finished, Since, Apart;
      state, done := NeedMore, true;
      if lookahead <= MAX_MATCH {
        RefillRle(start);
        if lookahead <= MAX_MATCH && flush == NoFlush {
          return;
        }
        if lookahead == 0 {
          state := FinishRun(flush, 0);
          return;
        }
      }
      var bflush := RleStep(start);
      done := FlushIfFull(bflush);
    }

    /**
      Looks only for runs of one byte. No byte is read that was never stored to, if all below the high water mark were
      stored to and the window is not slid while the mark is below its end.
     */
    method DeflateRle(flush: Flush) returns (state: BlockState)
      requires Valid() && Sound(0) && Apart() && Coding() && !Copying() && Copyable()
      modifies this, window, head, prev, coder.Repr
      ensures Valid() && Sound(0) && SameStream() && Coded(state) && Since(old(Now()))
      ensures strategy == Rle ==> prescribed == old(prescribed)
      ensures !state.NeedMore? ==> insert == 0
      ensures flush.NoFlush? ==> state.NeedMore?
      ensures state.NeedMore? && !flush.NoFlush? ==> Progress(flush)
      ensures !state.NeedMore? ==>
                && nextIn == [] && lookahead == 0 && syms == [] && strstart < wSize + MaxDist()
                && (state.BlockDone? <==> !flush.Finish?)
    {
      hide Holds, Chains, Tracks, Covers, Within, Finished, Since, Apart, Coding, Right;
      ghost var start := Now();
      StartsClean();
      var done := false;
      state := NeedMore;
      while !done
        invariant Valid() && Sound(0) && SameStream() && Coded(state) && Since(start)
        invariant !done ==> state.NeedMore?
        invariant flush.NoFlush? ==> state.NeedMore?
        invariant !state.NeedMore? ==> insert == 0
        invariant strategy == Rle ==> prescribed == old(prescribed)
        invariant !done ==> Ahead() < old(Ahead()) || (Ahead() == old(Ahead()) && syms == old(syms))
        invariant done && state.NeedMore? && !flush.NoFlush? ==> Progress(flush)
        invariant !state.NeedMore? ==>
                && nextIn == [] && lookahead == 0 && syms == [] && strstart < wSize + MaxDist()
                && (state.BlockDone? <==> !flush.Finish?)
        decreases !done, Ahead()
      {
        state, done := RleRound(flush, start);
      }
    }

    lemma StartsClean()
      requires highWater <= |stored|
      ensures Since(Now())
    {
    }

    /** Enters the positions inside a match of `matchLength` bytes at the current position, and moves behind it. */
    method InsertInside()
      requires Sizes() && Chains(head[..], prev[..], linked, strstart + 1, strstart + 1) && 1 < matchLength <= MAX_MATCH
      requires strstart + MIN_LOOKAHEAD <= window.Length
      modifies head, prev, `strstart, `matchLength, `linked
      ensures Chains(head[..], prev[..], linked, strstart, strstart) && strstart == old(strstart + matchLength)
                && matchLength == 0
      ensures window[..] == old(window[..])
      ensures Dictionary() == Entered(old(Dictionary()), old(strstart) + 1, old(matchLength) - 1)
    {
      hide Chains, KeyAt, Key, Enter;
      ghost var from := strstart + 1;
      matchLength := matchLength - 1;
      while true
        invariant matchLength > 0 && strstart + matchLength + 1 == old(strstart + matchLength)
        invariant Chains(head[..], prev[..], linked, strstart + 1, strstart + 1)
        invariant window[..] == old(window[..]) && Dictionary() == Entered(old(Dictionary()), from, strstart + 1 - from)
        decreases matchLength
      {
        strstart := strstart + 1;
        var m := InsertString(strstart, strstart);
        ChainsMore(head[..], prev[..], linked, strstart + 1, strstart, strstart + 1);
        matchLength := matchLength - 1;
        if matchLength == 0 {
          break;
        }
      }
      strstart := strstart + 1;
    }

    /** Behind a short match, enters all its positions; behind a long one, none. */
    method InsertMatch(ghost len: nat)
      requires Full(strstart + 1) && matchLength == len <= MAX_MATCH && ACTUAL_MIN_MATCH <= len <= lookahead
      requires strstart + MIN_LOOKAHEAD <= window.Length && Right(base + strstart + len)
      modifies head, prev, `strstart, `lookahead, `matchLength, `linked
      ensures Recorded(0) && strstart == old(strstart) + len && lookahead == old(lookahead) - len && matchLength == 0
      ensures window[..] == old(window[..])
      ensures Dictionary() == if len <= maxLazyMatch && lookahead >= ACTUAL_MIN_MATCH
                              then Entered(old(Dictionary()), old(strstart) + 1, len - 1) else old(Dictionary())
    {
      hide Covers, Within, Holds, Chains, Tracks, Entered;
      ghost var w := window[..];
      lookahead := lookahead - matchLength;
      if matchLength <= maxLazyMatch && lookahead >= ACTUAL_MIN_MATCH {
        InsertInside();
        assert window[..] == w;
      } else {
        ChainsMore(head[..], prev[..], linked, strstart + 1, strstart + 1, strstart + len);
        strstart := strstart + matchLength;
        matchLength := 0;
      }
    }

    /** The last position before that begins like the current one, by the hash, if enough bytes follow this one. */
    ghost function First(): nat
      reads `strstart, `lookahead, window, head
    {
      if lookahead >= ACTUAL_MIN_MATCH && strstart + 4 <= window.Length && head.Length > 0 then head[KeyAt(strstart)]
      else NIL
    }

    /**
      Enters the current position, if enough bytes follow it; the result is the chain to search, if it begins in reach.
     */
    method EnterCurrent() returns (hashHead: nat)
      requires Valid() && Ready()
      modifies head, prev, `linked
      ensures Full(strstart + 1) && Chains(head[..], prev[..], linked, strstart + 1, strstart)
      ensures hashHead != NIL ==> lookahead >= ACTUAL_MIN_MATCH
      ensures hashHead != NIL && strstart - hashHead <= MaxDist() ==> Candidate(hashHead)
      ensures window[..] == old(window[..]) && hashHead == old(First())
      ensures Dictionary() == if lookahead >= ACTUAL_MIN_MATCH then Enter(old(Dictionary()), KeyAt(strstart), strstart)
                              else old(Dictionary())
    {
      hide Holds, Chains, Tracks, KeyAt, Enter;
      hashHead := NIL;
      if lookahead >= ACTUAL_MIN_MATCH {
        hashHead := InsertString(strstart, strstart);
        ChainsMore(head[..], prev[..], linked, strstart + 1, strstart, strstart + 1);
      } else {
        ChainsAfter(head[..], prev[..], linked, strstart);
      }
    }

    /** The input at the current position repeats what begins at `m`, which is in reach. */
    ghost predicate Found(m: nat, len: nat)
      reads `strstart, `base, `input
    {
      InReach(m) && Repeats(input, base + strstart, strstart - m, len)
    }

    /** What is found from the current position's link. */
    lemma SoughtIs(first: nat, prevLen: nat)
      requires Sizes() && (lookahead >= ACTUAL_MIN_MATCH ==> prev[strstart % wSize] == first)
      requires lookahead < ACTUAL_MIN_MATCH ==> first == NIL
      ensures Sought(prevLen) ==
              if first != NIL && strstart - first <= MaxDist() then
                Finding(FoundFrom(first, prevLen).start, Min(FoundFrom(first, prevLen).len, lookahead))
              else Finding(NIL, ACTUAL_MIN_MATCH - 1)
    {
      hide FoundFrom;
    }

    /** The functions of the levels that take the first match, and those that look for a better one. */
    predicate Greedy() {
      strategy != HuffmanOnly && strategy != Rle && 0 < level <= 3
    }

    predicate Lazy() {
      strategy != HuffmanOnly && strategy != Rle && level > 3
    }

    /** A position that was just entered leads to the head of its chain before. */
    lemma IsCurrent(d: Dict, first: nat)
      requires Sizes() && |d.head| == head.Length && |d.prev| == prev.Length && strstart + 4 <= window.Length
      requires first == if lookahead >= ACTUAL_MIN_MATCH then d.head[KeyAt(strstart)] else NIL
      requires Dictionary() == if lookahead >= ACTUAL_MIN_MATCH then Enter(d, KeyAt(strstart), strstart) else d
      ensures Current()
      ensures lookahead >= ACTUAL_MIN_MATCH ==> prev[strstart % wSize] == first
    {
      hide KeyAt;
      if lookahead >= ACTUAL_MIN_MATCH {
        assert head[..][KeyAt(strstart)] == strstart && prev[..][strstart % wSize] == first;
      }
    }

    /** Searches a chain; a match that is longer than the best one before is a repetition in the input. */
    method Search(hashHead: nat) returns (length: nat)
      requires Full(strstart + 1) && Chains(head[..], prev[..], linked, strstart + 1, strstart) && Candidate(hashHead)
      requires strstart + MAX_MATCH + 2 <= window.Length && 3 <= prevLength <= MAX_MATCH && maxChainLength < U32
      modifies `matchStart
      ensures length <= lookahead && length <= MAX_MATCH && length >= Min(prevLength, lookahead) && matchStart < U32
      ensures length > prevLength ==> Found(matchStart, length)
      ensures var r := FoundFrom(hashHead, prevLength);
              && length == Min(r.len, lookahead) && r.len >= prevLength
              && matchStart == if r.len > prevLength then r.start else old(matchStart)
    {
      hide SameBytes, Holds, Chains, Tracks, Repeats, FoundFrom;
      length := LongestMatch(hashHead);
      if length > prevLength {
        SameRepeats(window[..], input, base, strstart + lookahead, matchStart, strstart, length);
      }
    }

    /** Follows the chain from `hashHead`, if it begins in reach. */
    method GreedySearch(hashHead: nat)
      requires Full(strstart + 1) && Chains(head[..], prev[..], linked, strstart + 1, strstart) && Ready()
                && FastState()
      requires hashHead != NIL && strstart - hashHead <= MaxDist() ==> Candidate(hashHead)
      requires hashHead != NIL ==> lookahead >= ACTUAL_MIN_MATCH
      modifies `matchStart, `matchLength
      ensures Full(strstart + 1) && matchLength <= MAX_MATCH
      ensures matchLength >= ACTUAL_MIN_MATCH ==> matchLength <= lookahead && Found(matchStart, matchLength)
      ensures var r := FoundFrom(hashHead, ACTUAL_MIN_MATCH - 1);
              var f := if hashHead != NIL && strstart - hashHead <= MaxDist()
                  then Finding(r.start, Min(r.len, lookahead))
                       else Finding(NIL, ACTUAL_MIN_MATCH - 1);
              if matchLength >= ACTUAL_MIN_MATCH then f == Finding(matchStart, matchLength)
                  else f.len < ACTUAL_MIN_MATCH
    {
      hide Holds, Chains, Tracks, Repeats, FoundFrom, SameBytes;
      if hashHead != NIL && strstart - hashHead <= MaxDist() {
        matchLength := Search(hashHead);
      }
    }

    /** After a search it is known what is to be recorded. */
    lemma NowChosen()
      requires Greedy() && Current()
      requires var f := Sought(ACTUAL_MIN_MATCH - 1);
               if matchLength >= ACTUAL_MIN_MATCH then f == Finding(matchStart, matchLength) && strstart >= matchStart
               else f.len < ACTUAL_MIN_MATCH
      ensures if matchLength >= ACTUAL_MIN_MATCH then Prescribes(Match(strstart - matchStart, matchLength - MIN_MATCH))
              else Prescribes(Literal(ByteAt(strstart)))
    {
      hide Sought, Current;
    }

    /** Enters the current position and takes the match that its chain has, if any. */
    method FastSearch()
      requires Valid() && Sound(0) && Ready() && FastState()
      modifies head, prev, `matchStart, `matchLength, `linked
      ensures Full(strstart + 1) && Sound(0) && matchLength <= MAX_MATCH
      ensures matchLength >= ACTUAL_MIN_MATCH ==> matchLength <= lookahead && Found(matchStart, matchLength)
      ensures Greedy() && lookahead > 0 ==>
                if matchLength >= ACTUAL_MIN_MATCH then Prescribes(Match(strstart - matchStart,
                    matchLength - MIN_MATCH))
                else Prescribes(Literal(ByteAt(strstart)))
      ensures window[..] == old(window[..])
      ensures Dictionary() == if lookahead >= ACTUAL_MIN_MATCH then Enter(old(Dictionary()), KeyAt(strstart), strstart)
                              else old(Dictionary())
    {
      hide Covers, Within, SameBytes, Holds, Repeats, Chains, Tracks, FoundFrom, KeyAt, Right,
           Sought, Current, Prescribes, Enter;
      var hashHead := EnterCurrent();
      IsCurrent(old(Dictionary()), hashHead);
      GreedySearch(hashHead);
      SoughtIs(hashHead, ACTUAL_MIN_MATCH - 1);
      if Greedy() {
        NowChosen();
      }
    }

    /** Records the match that was found, and moves behind it. */
    method PutMatch() returns (bflush: bool)
      requires Full(strstart + 1) && |syms| < symEnd && Sound(0) && strstart + MIN_LOOKAHEAD <= window.Length
      requires ACTUAL_MIN_MATCH <= matchLength <= MAX_MATCH && matchLength <= lookahead
      requires Found(matchStart, matchLength)
      modifies head, prev, `syms, `prescribed, `strstart, `lookahead, `matchLength, `linked
      ensures Recorded(0) && (bflush <==> |syms| == symEnd) && strstart > old(strstart) && matchLength == 0
      ensures prescribed == old(prescribed && Prescribes(Match(strstart - matchStart, matchLength - MIN_MATCH)))
      ensures window[..] == old(window[..]) && lookahead == old(lookahead) - (strstart - old(strstart))
      ensures Dictionary() == if old(matchLength) <= maxLazyMatch && lookahead >= ACTUAL_MIN_MATCH
                              then Entered(old(Dictionary()), old(strstart) + 1, old(matchLength) - 1)
                              else old(Dictionary())
    {
      hide Covers, Within, Holds, Repeats, Chains, Tracks, Prescribes, Entered;
      bflush := EmitMatch(strstart, strstart - matchStart, matchLength, 0);
      InsertMatch(matchLength);
    }

    /** One symbol of DeflateFast: the first match that is found, or a literal. */
    method FastSymbol() returns (bflush: bool)
      requires Valid() && Sound(0) && lookahead > 0 && Ready() && FastState()
      requires Apart() && Coding()
      modifies head, prev, `syms, `prescribed, `strstart, `lookahead, `matchStart, `matchLength, `linked
      ensures Recorded(0) && (bflush <==> |syms| == symEnd) && strstart > old(strstart) && FastState()
      ensures Coding() && (Greedy() ==> prescribed == old(prescribed))
    {
      hide Covers, Within, SameBytes, Holds, Repeats, Chains, Tracks, Coding, Right, Found, Prescribes, Entered, Enter;
      FastSearch();
      if matchLength >= ACTUAL_MIN_MATCH {
        bflush := PutMatch();
      } else {
        bflush := PutLiteral(strstart + 1);
      }
    }

    /** What holds between the symbols of DeflateFast. */
    predicate FastState()
      reads `matchLength, `prevLength
    {
      matchLength < ACTUAL_MIN_MATCH && prevLength == 3 && maxChainLength < U32
    }

    /** One round of DeflateFast; `done` says whether the call returns. */
    method FastRound(flush: Flush) returns (state: BlockState, done: bool)
      requires Valid() && Sound(0) && FastState() && Apart() && Coding() && level > 0
      modifies this, window, head, prev, coder.Repr
      ensures Valid() && Sound(0) && SameStream() && FastState() && Coded(state)
      ensures Greedy() ==> prescribed == old(prescribed)
      ensures !state.NeedMore? ==> insert == Min(strstart, ACTUAL_MIN_MATCH - 1)
      ensures flush.NoFlush? ==> state.NeedMore?
      ensures !done ==> state.NeedMore?
      ensures !done || (state.NeedMore? && flush.Finish?) ==> Ahead() < old(Ahead())
      ensures !state.NeedMore? ==>
                nextIn == [] && lookahead == 0 && syms == [] && (state.BlockDone? <==> !flush.Finish?)
    {
      hide Holds, Chains, Tracks, Covers, Within, Coding, Finished, Apart;
      state, done := NeedMore, true;
      if lookahead < MIN_LOOKAHEAD {
        Refill(0);
        if lookahead < MIN_LOOKAHEAD && flush == NoFlush {
          return;
        }
        if lookahead == 0 {
          state := FinishRun(flush, if strstart < ACTUAL_MIN_MATCH - 1 then strstart else ACTUAL_MIN_MATCH - 1);
          return;
        }
      }
      var bflush := FastSymbol();
      done := FlushIfFull(bflush);
    }

    /** Takes the first match that is found: every symbol is the longest match of the search, or a literal. */
    method DeflateFast(flush: Flush) returns (state: BlockState)
      requires Valid() && Sound(0) && FastState() && Apart() && Coding() && level > 0
      modifies this, window, head, prev, coder.Repr
      ensures Valid() && Sound(0) && SameStream() && FastState() && Coded(state)
      ensures Greedy() ==> prescribed == old(prescribed)
      ensures !state.NeedMore? ==> insert == Min(strstart, ACTUAL_MIN_MATCH - 1)
      ensures flush.NoFlush? ==> state.NeedMore?
      ensures state.NeedMore? || (nextIn == [] && lookahead == 0 && syms == [])
      ensures state.NeedMore? && flush.Finish? ==> Ahead() < old(Ahead())
      ensures !state.NeedMore? ==> (state.BlockDone? <==> !flush.Finish?)
    {
      hide Holds, Chains, Tracks, Covers, Within, Coding, Finished, Apart, Right;
      var done := false;
      state := NeedMore;
      while !done
        invariant Valid() && Sound(0) && SameStream() && FastState() && Coded(state)
        invariant flush.NoFlush? ==> state.NeedMore?
        invariant !done ==> state.NeedMore? && Ahead() <= old(Ahead())
        invariant Greedy() ==> prescribed == old(prescribed)
        invariant done && state.NeedMore? && flush.Finish? ==> Ahead() < old(Ahead())
        invariant !state.NeedMore? ==> insert == Min(strstart, ACTUAL_MIN_MATCH - 1)
        invariant !state.NeedMore? ==>
                    nextIn == [] && lookahead == 0 && syms == [] && (state.BlockDone? <==> !flush.Finish?)
        decreases !done, Ahead()
      {
        state, done := FastRound(flush);
      }
    }

    /** The match that was found one position before is right, even if its start has left the window. */
    ghost predicate Earlier(matchPos: nat, len: nat)
      reads `matchAvailable, `strstart, `base, `input
    {
      var d := (strstart - 1 - matchPos) % U32;
      matchAvailable && strstart >= 1 && d <= MaxDist() && Repeats(input, base + strstart - 1, d, len)
    }

    /** What holds between the symbols of DeflateSlow. */
    ghost predicate SlowState()
      reads `matchAvailable, `matchLength, `matchStart, `strstart, `base, `input
    {
      && 3 <= matchLength <= MAX_MATCH && maxChainLength < U32 && (matchAvailable ==> strstart >= 1)
      && (matchLength >= ACTUAL_MIN_MATCH ==> Earlier(matchStart, matchLength))
    }

    /** How many bytes before the current position are still to be put out. */
    function Pending(): nat
      reads `matchAvailable
    {
      if matchAvailable then 1 else 0
    }

    /** Refilling the window keeps what is known of the earlier match. */
    method RefillSlow()
      requires Valid() && Sound(Pending()) && lookahead < MIN_LOOKAHEAD && SlowState()
      requires Apart() && Coding()
      modifies window, head, prev, `strstart, `lookahead, `matchStart, `insert, `highWater, `blockStart, `nextIn,
               `base, `stored, `linked, `input
      ensures Valid() && Sound(Pending()) && SlowState() && Ready() && lookahead >= old(lookahead)
      ensures SameStream() && base + strstart == old(base + strstart)
      ensures lookahead < MIN_LOOKAHEAD ==> nextIn == []
      ensures Coding()
    {
      hide Holds, Chains, Tracks, Covers, Within, Coding;
      ghost var s0, m0, in0 := strstart, matchStart, input;
      Refill(Pending());
      DistanceBefore(s0, m0, strstart, matchStart);
      if matchLength >= ACTUAL_MIN_MATCH {
        assert input == in0 + input[|in0|..];
        RepeatsMore(in0, input[|in0|..], base + strstart - 1, (s0 - 1 - m0) % U32, matchLength);
      }
    }

    /** Keeps the match found one position before, and forgets the current one. */
    method KeepMatch()
      modifies `matchLength, `prevLength, `prevMatch
      ensures prevLength == old(matchLength) && prevMatch == matchStart && matchLength == ACTUAL_MIN_MATCH - 1
    {
      prevLength := matchLength;
      prevMatch := matchStart;
      matchLength := ACTUAL_MIN_MATCH - 1;
    }

    /** Follows the chain from `hashHead`, if it is worth looking for a longer match than before. */
    method LazySearch(hashHead: nat)
      requires Full(strstart + 1) && Chains(head[..], prev[..], linked, strstart + 1, strstart) && Ready()
      requires hashHead != NIL && strstart - hashHead <= MaxDist() ==> Candidate(hashHead)
      requires 3 <= prevLength <= MAX_MATCH && maxChainLength < U32 && matchLength == ACTUAL_MIN_MATCH - 1
      requires hashHead != NIL ==> lookahead >= ACTUAL_MIN_MATCH
      modifies `matchStart, `matchLength
      ensures Full(strstart + 1)
      ensures 3 <= matchLength <= MAX_MATCH && (matchLength > prevLength ==> Found(matchStart, matchLength))
      ensures var len := if hashHead != NIL && strstart - hashHead <= MaxDist()
                         then Min(FoundFrom(hashHead, prevLength).len, lookahead) else ACTUAL_MIN_MATCH - 1;
              matchLength ==
              if prevLength >= maxLazyMatch || (len <= 5 && strategy == Filtered) then ACTUAL_MIN_MATCH - 1 else len
    {
      hide Holds, Chains, Tracks, Repeats, FoundFrom;
      if hashHead != NIL && prevLength < maxLazyMatch && strstart - hashHead <= MaxDist() {
        matchLength := Search(hashHead);
        if matchLength <= 5 && strategy == Filtered {
          matchLength := ACTUAL_MIN_MATCH - 1;
        }
      }
    }

    /** Looks for a match at the current position that is longer than the one before. */
    method SlowSearch()
      requires Valid() && lookahead > 0 && Ready() && 3 <= matchLength <= MAX_MATCH && maxChainLength < U32
      modifies head, prev, `matchStart, `matchLength, `prevLength, `prevMatch, `linked
      ensures Full(strstart + 1) && prevLength == old(matchLength) && prevMatch == old(matchStart)
      ensures 3 <= matchLength <= MAX_MATCH && (matchLength > prevLength ==> Found(matchStart, matchLength))
      ensures Current() && matchLength == LazyLength()
      ensures window[..] == old(window[..])
      ensures Dictionary() == if lookahead >= ACTUAL_MIN_MATCH then Enter(old(Dictionary()), KeyAt(strstart), strstart)
                              else old(Dictionary())
    {
      hide Holds, Chains, Tracks, FoundFrom, KeyAt, Enter, Sought, Current, Found;
      var hashHead := EnterCurrent();
      IsCurrent(old(Dictionary()), hashHead);
      KeepMatch();
      LazySearch(hashHead);
      SoughtIs(hashHead, prevLength);
    }

    /**
      Behind the first two positions of a match, enters those it covers, as far as enough bytes follow them, and moves
      behind it.
     */
    method InsertCovered(movFwd: nat, maxInsert: nat)
      requires Full(strstart + 1) && movFwd + 1 <= lookahead
      requires strstart + MIN_LOOKAHEAD <= window.Length && movFwd <= MAX_MATCH - 2
      requires Right(base + strstart + movFwd + 1)
      modifies head, prev, `strstart, `lookahead, `linked
      ensures Recorded(0) && strstart == old(strstart) + movFwd + 1 && lookahead == old(lookahead) - (movFwd + 1)
      ensures window[..] == old(window[..])
      ensures Dictionary() == Entered(old(Dictionary()), old(strstart) + 1,
                                      Min(movFwd, (maxInsert - old(strstart)) % U32))
    {
      hide Holds, Chains, Tracks, Entered, Covers, Within, Begun;
      ghost var w := window[..];
      lookahead := lookahead - (movFwd + 1);
      var insertCnt := movFwd;
      if insertCnt > (maxInsert - strstart) % U32 {
        insertCnt := (maxInsert - strstart) % U32;
      }
      BulkInsert(strstart + 1, insertCnt);
      ChainsMore(head[..], prev[..], linked, strstart + 1 + insertCnt, strstart + 1 + insertCnt, strstart + movFwd + 1);
      strstart := strstart + movFwd + 1;
      assert window[..] == w;
    }

    /** Records the match at the position before. */
    method PutEarlier() returns (bflush: bool)
      requires Full(strstart + 1) && |syms| < symEnd && Sound(1) && strstart + MIN_LOOKAHEAD <= window.Length
      requires ACTUAL_MIN_MATCH <= prevLength <= MAX_MATCH && Earlier(prevMatch, prevLength)
      modifies `syms, `prescribed
      ensures Full(strstart + 1) && (bflush <==> |syms| == symEnd)
      ensures Right(base + strstart - 1 + prevLength) && prevLength - 1 <= lookahead
      ensures prescribed == old(prescribed
                                && Prescribes(Match((strstart - 1 - prevMatch) % U32, prevLength - MIN_MATCH)))
    {
      hide Covers, Within, Holds, Chains, Tracks, Repeats, Prescribes;
      ghost var d := (strstart - 1 - prevMatch) % U32;
      RepeatsBounds(input, base + strstart - 1, d, prevLength);
      bflush := EmitMatch(strstart - 1, (strstart - 1 - prevMatch) % U32, prevLength, 1);
    }

    /** Puts out the match at the position before and enters the positions it covers. */
    method SlowMatch() returns (bflush: bool)
      requires Full(strstart + 1) && |syms| < symEnd && Sound(1) && strstart + MIN_LOOKAHEAD <= window.Length
      requires ACTUAL_MIN_MATCH <= prevLength <= MAX_MATCH && Earlier(prevMatch, prevLength)
      modifies head, prev, `syms, `prescribed, `strstart, `lookahead, `matchLength, `prevLength, `matchAvailable,
               `linked
      ensures Recorded(0) && (bflush <==> |syms| == symEnd) && !matchAvailable && matchLength == 3
                && prevLength == 0
                && strstart > old(strstart)
      ensures prescribed == old(prescribed
                                && Prescribes(Match((strstart - 1 - prevMatch) % U32, prevLength - MIN_MATCH)))
      ensures strstart == old(strstart + prevLength) - 1 && lookahead == old(lookahead - prevLength) + 1
      ensures window[..] == old(window[..])
      ensures Dictionary() == Entered(old(Dictionary()), old(strstart) + 1,
                                      Min(old(prevLength) - 2, (old(lookahead) - ACTUAL_MIN_MATCH) % U32))
    {
      hide Covers, Within, Holds, Chains, Tracks, Repeats, Prescribes, Entered, Earlier, Begun, Right, Full,
           Recorded;
      var maxInsert := (strstart + lookahead - ACTUAL_MIN_MATCH) % U32;
      WrapsBack(strstart, lookahead - ACTUAL_MIN_MATCH);
      bflush := PutEarlier();
      assert base + strstart + (prevLength - 2) + 1 == base + strstart - 1 + prevLength;
      InsertCovered(prevLength - 2, maxInsert);
      prevLength := 0;
      matchAvailable := false;
      matchLength := ACTUAL_MIN_MATCH - 1;
    }

    /** Puts out the byte before the current position, if it is pending, and moves on by one. */
    method SlowLiteral() returns (full: bool)
      requires Full(strstart + 1) && |syms| < symEnd && Sound(Pending()) && lookahead > 0
                && (matchAvailable ==> strstart >= 1)
      requires strstart + MIN_LOOKAHEAD <= window.Length && Apart() && Coding() && level > 0
      modifies `syms, `prescribed, `emitted, `blockStart, `strstart, `lookahead, `matchAvailable, coder.Repr
      ensures Valid() && Sound(1) && Coding() && matchAvailable && strstart == old(strstart) + 1
      ensures |coder.blocks| == |old(coder.blocks)| + if old(matchAvailable && |syms| + 1 == symEnd) then 1 else 0
      ensures prescribed == old(prescribed && (matchAvailable ==> Prescribes(Literal(ByteAt(strstart - 1)))))
    {
      hide Covers, Within, Holds, Chains, Tracks, Coding, Finished, Prescribes, Pow2, BlockStream.Best;
      full := false;
      if matchAvailable {
        var bflush := EmitLiteral(strstart - 1, 1);
        if bflush {
          full := FlushBlock(0);
        }
        Consume(1, 1, strstart + 1);
        full := *;
      } else {
        matchAvailable := true;
        Consume(1, 1, strstart + 1);
      }
    }

    /** After a search it is known what is to be recorded. */
    lemma NowPrescribed()
      requires Lazy() && lookahead > 0 && Current() && matchLength == LazyLength()
      ensures if prevLength >= ACTUAL_MIN_MATCH && matchLength <= prevLength
              then Prescribes(Match((strstart - 1 - prevMatch) % U32, prevLength - MIN_MATCH))
              else Prescribes(Literal(ByteAt(strstart - 1)))
    {
      hide LazyLength, Current;
    }

    /** Records what the search for a longer match leads to: the earlier match, the earlier byte, or nothing yet. */
    method SlowPut() returns (full: bool)
      requires Full(strstart + 1) && Sound(Pending()) && |syms| < symEnd && lookahead > 0
      requires strstart + MIN_LOOKAHEAD <= window.Length && (matchAvailable ==> strstart >= 1)
      requires 3 <= matchLength <= MAX_MATCH && maxChainLength < U32 && prevLength <= MAX_MATCH
      requires matchLength > prevLength ==> Found(matchStart, matchLength)
      requires prevLength >= ACTUAL_MIN_MATCH ==> Earlier(prevMatch, prevLength)
      requires Apart() && Coding() && level > 0
      modifies head, prev, `syms, `prescribed, `emitted, `blockStart, `strstart, `lookahead, `matchLength, `prevLength,
               `matchAvailable, `linked, coder.Repr
      ensures Valid() && Sound(Pending()) && SlowState() && Coding() && strstart > old(strstart)
      ensures prescribed == old(prescribed
                && (prevLength >= ACTUAL_MIN_MATCH && matchLength <= prevLength ==>
                      Prescribes(Match((strstart - 1 - prevMatch) % U32, prevLength - MIN_MATCH)))
                && (!(prevLength >= ACTUAL_MIN_MATCH && matchLength <= prevLength) && matchAvailable ==>
                      Prescribes(Literal(ByteAt(strstart - 1)))))
    {
      hide Covers, Within, SameBytes, Holds, Repeats, Chains, Tracks, Coding, Finished, Prescribes, Entered;
      if prevLength >= ACTUAL_MIN_MATCH && matchLength <= prevLength {
        var bflush := SlowMatch();
        full := FlushIfFull(bflush);
      } else {
        full := SlowLiteral();
      }
    }

    /** One step of DeflateSlow. */
    method SlowSymbol() returns (full: bool)
      requires Valid() && Sound(Pending()) && lookahead > 0 && Ready() && SlowState()
      requires Apart() && Coding() && level > 0
      modifies head, prev, `syms, `prescribed, `emitted, `blockStart, `strstart, `lookahead, `matchStart, `matchLength,
               `prevLength, `prevMatch, `matchAvailable, `linked, coder.Repr
      ensures Valid() && Sound(Pending()) && SlowState() && Coding() && strstart > old(strstart)
      ensures input == old(input) && nextIn == old(nextIn) && base == old(base)
      ensures Lazy() ==> prescribed == old(prescribed)
    {
      hide Covers, Within, SameBytes, Holds, Repeats, Chains, Tracks, Coding, Finished, LazyLength, Enter, Prescribes,
           Current, KeyAt;
      SlowSearch();
      if Lazy() {
        NowPrescribed();
      }
      full := SlowPut();
    }

    /** Prefers a longer match at the next position. */
    method DeflateSlow(flush: Flush) returns (state: BlockState)
      requires Valid() && Sound(Pending()) && SlowState() && Apart() && Coding() && level > 0
      modifies this, window, head, prev, coder.Repr
      ensures Valid() && Sound(Pending()) && SameStream() && SlowState() && Coded(state)
      ensures Lazy() ==> prescribed == old(prescribed)
      ensures !state.NeedMore? ==> insert == Min(strstart, ACTUAL_MIN_MATCH - 1)
      ensures flush.NoFlush? ==> state.NeedMore?
      ensures state.NeedMore? || (nextIn == [] && lookahead == 0 && syms == [] && Pending() == 0)
      ensures state.NeedMore? && flush.Finish? ==> Ahead() < old(Ahead())
      ensures !state.NeedMore? ==> (state.BlockDone? <==> !flush.Finish?)
    {
      hide Holds, Chains, Tracks, Covers, Within, Coding, Finished, Apart;
      while true
        invariant Valid() && Sound(Pending()) && SameStream() && SlowState() && Coding() && Ahead() <= old(Ahead())
        invariant Lazy() ==> prescribed == old(prescribed)
        decreases Ahead()
      {
        if lookahead < MIN_LOOKAHEAD {
          RefillSlow();
          if lookahead < MIN_LOOKAHEAD && flush == NoFlush {
            return NeedMore;
          }
          if lookahead == 0 {
            break;
          }
        }
        var full := SlowSymbol();
        if full {
          return NeedMore;
        }
      }
      state := SlowEnd(flush);
    }

    /** The end of DeflateSlow: the last byte is still to be put out. */
    method SlowEnd(flush: Flush) returns (state: BlockState)
      requires Valid() && Sound(Pending()) && lookahead == 0 && SlowState() && Ready()
      requires Apart() && Coding() && level > 0
      modifies `syms, `prescribed, `emitted, `blockStart, `insert, `matchAvailable, coder.Repr
      ensures Valid() && Sound(0) && syms == [] && Coded(state) && !matchAvailable && matchLength == old(matchLength)
      ensures strstart == old(strstart) && lookahead == 0 && insert == Min(strstart, ACTUAL_MIN_MATCH - 1)
      ensures Lazy() ==> prescribed == old(prescribed)
      ensures input == old(input) && nextIn == old(nextIn) && base == old(base)
      ensures state.NeedMore? || state.BlockDone? <==> !flush.Finish?
    {
      hide Covers, Within, Holds, Chains, Tracks, Coding, Finished;
      if matchAvailable {
        var bflush := EmitLiteral(strstart - 1, 1);
        matchAvailable := false;
      }
      state := FinishRun(flush, if strstart < ACTUAL_MIN_MATCH - 1 then strstart else ACTUAL_MIN_MATCH - 1);
    }

    // ---------- literals only, and no compression ----------

    /** There are only literals, one for each byte of the current block. */
    predicate Literally()
      reads `strstart, `blockStart, `syms
    {
      strstart - blockStart == |syms|
    }

    /** One symbol of DeflateHuff. */
    method HuffSymbol() returns (bflush: bool)
      requires Valid() && Sound(0) && lookahead > 0 && Literally()
      requires Apart() && Coding()
      modifies `syms, `prescribed, `strstart, `lookahead, `matchLength
      ensures Recorded(0) && (bflush <==> |syms| == symEnd) && Literally() && strstart == old(strstart) + 1
      ensures Coding() && (strategy == HuffmanOnly ==> prescribed == old(prescribed))
    {
      hide Holds, Chains, Tracks, Covers, Within, Coding;
      matchLength := 0;
      bflush := PutLiteral(strstart);
    }

    /** One round of DeflateHuff; `done` says whether the call returns. */
    method HuffRound(flush: Flush) returns (state: BlockState, done: bool)
      requires Valid() && Sound(0) && Literally() && Apart() && Coding() && !Copying()
      modifies this, window, head, prev, coder.Repr
      ensures Valid() && Sound(0) && SameStream() && Coded(state)
      ensures strategy == HuffmanOnly ==> prescribed == old(prescribed)
      ensures state.NeedMore? ==> Literally()
      ensures !state.NeedMore? ==> insert == 0
      ensures flush.NoFlush? ==> state.NeedMore?
      ensures !done ==> state.NeedMore?
      ensures !done || (state.NeedMore? && flush.Finish?) ==> Ahead() < old(Ahead())
      ensures !state.NeedMore? ==>
                nextIn == [] && lookahead == 0 && syms == [] && (state.BlockDone? <==> !flush.Finish?)
    {
      hide Holds, Chains, Tracks, Covers, Within, Coding, Finished, Apart;
      state, done := NeedMore, true;
      if lookahead == 0 {
        Refill(0);
        if lookahead == 0 {
          if flush != NoFlush {
            state := FinishRun(flush, 0);
          }
          return;
        }
      }
      var bflush := HuffSymbol();
      done := FlushIfFull(bflush);
    }

    /** Does not look for matches: every symbol is a literal. */
    method DeflateHuff(flush: Flush) returns (state: BlockState)
      requires Valid() && Sound(0) && Literally() && Apart() && Coding() && !Copying()
      modifies this, window, head, prev, coder.Repr
      ensures Valid() && Sound(0) && SameStream() && Coded(state)
      ensures strategy == HuffmanOnly ==> prescribed == old(prescribed)
      ensures state.NeedMore? ==> Literally()
      ensures !state.NeedMore? ==> insert == 0
      ensures flush.NoFlush? ==> state.NeedMore?
      ensures state.NeedMore? || (nextIn == [] && lookahead == 0 && syms == [])
      ensures state.NeedMore? && flush.Finish? ==> Ahead() < old(Ahead())
      ensures !state.NeedMore? ==> (state.BlockDone? <==> !flush.Finish?)
    {
      hide Holds, Chains, Tracks, Covers, Within, Coding, Finished, Apart, Right;
      var done := false;
      state := NeedMore;
      while !done
        invariant Valid() && Sound(0) && SameStream() && Coded(state) && (state.NeedMore? ==> Literally())
        invariant flush.NoFlush? ==> state.NeedMore?
        invariant !done ==> state.NeedMore? && Ahead() <= old(Ahead())
        invariant strategy == HuffmanOnly ==> prescribed == old(prescribed)
        invariant done && state.NeedMore? && flush.Finish? ==> Ahead() < old(Ahead())
        invariant !state.NeedMore? ==> insert == 0
        invariant !state.NeedMore? ==>
                    nextIn == [] && lookahead == 0 && syms == [] && (state.BlockDone? <==> !flush.Finish?)
        decreases !done, Ahead()
      {
        state, done := HuffRound(flush);
      }
    }

    /** How many bytes of the current block are not yet written out. */
    function Held(): int
      reads `strstart, `blockStart
    {
      strstart - blockStart
    }

    /**
      What holds between the rounds of DeflateStored: the block's bytes are all in the window, and may all be written.
     */
    ghost predicate StoredState()
      reads this
    {
      syms == [] && 0 <= blockStart <= strstart && Held() < MaxDist() && Held() < MaxBlockSize() && Sound(Held())
    }

    /** Makes all of the lookahead part of the block, as far as the block can take it. */
    method TakeLookahead() returns (fits: bool)
      requires Valid() && StoredState() && lookahead > 0
      modifies `strstart, `lookahead
      ensures Valid() && syms == [] && 0 <= blockStart <= strstart && Right(base + blockStart)
      ensures strstart > old(strstart) && strstart + lookahead == old(strstart + lookahead)
      ensures if fits then Held() < MaxBlockSize() && lookahead == 0 else Held() == MaxBlockSize()
    {
      hide Holds, Tracks, Covers, Within;
      ghost var s0 := strstart;
      strstart := strstart + lookahead;
      lookahead := 0;
      var maxStart := blockStart + MaxBlockSize();
      fits := !(strstart == 0 || strstart >= maxStart);
      if !fits {
        lookahead := strstart - maxStart;
        strstart := maxStart;
      }
      ChainsMore(head[..], prev[..], linked, s0, s0, strstart);
    }

    /** One round of DeflateStored: writes out a block that cannot be longer, or that the window may soon lose. */
    method StoredRound() returns (full: bool)
      requires Valid() && StoredState() && lookahead > 0 && Apart() && Coding() && Copying()
      modifies `syms, `emitted, `blockStart, `strstart, `lookahead, coder.Repr
      ensures Valid() && StoredState() && Coding() && strstart > old(strstart)
      ensures strstart == Min(old(strstart + lookahead), old(blockStart) + MaxBlockSize())
      ensures blockStart == if old(strstart + lookahead - blockStart) >= Min(MaxBlockSize(), MaxDist()) then strstart
                            else old(blockStart)
      ensures |coder.blocks| == |old(coder.blocks)| + if blockStart == strstart then 1 else 0
      ensures input == old(input) && nextIn == old(nextIn) && base == old(base)
      ensures prescribed == old(prescribed)
    {
      hide Holds, Chains, Tracks, Covers, Within, Coding, Finished;
      var fits := TakeLookahead();
      full := false;
      if !fits {
        full := FlushBlock(0);
        if full {
          return;
        }
      }
      if strstart - blockStart >= MaxDist() {
        full := FlushBlock(0);
      }
    }

    /** Copies the input in stored blocks. */
    method DeflateStored(flush: Flush) returns (state: BlockState)
      requires Valid() && StoredState() && Apart() && Coding() && Copying()
      modifies this, window, head, prev, coder.Repr
      ensures Valid() && StoredState() && SameStream() && Coded(state) && prescribed == old(prescribed)
      ensures !state.NeedMore? ==> insert == 0
      ensures flush.NoFlush? ==> state.NeedMore?
      ensures state.NeedMore? || (nextIn == [] && lookahead == 0 && Held() == 0)
      ensures state.NeedMore? && flush.Finish? ==> Ahead() < old(Ahead())
      ensures !state.NeedMore? ==> (state.BlockDone? <==> !flush.Finish?)
    {
      hide Holds, Chains, Tracks, Covers, Within, Coding, Finished, Apart;
      while true
        invariant Valid() && StoredState() && SameStream() && Coding() && Ahead() <= old(Ahead())
        invariant prescribed == old(prescribed)
        decreases Ahead()
      {
        if lookahead <= 1 {
          Refill(Held());
          if lookahead == 0 && flush == NoFlush {
            return NeedMore;
          }
          if lookahead == 0 {
            state := StoredEnd(flush);
            return;
          }
        }
        var full := StoredRound();
        if full {
          return NeedMore;
        }
      }
    }

    /** The end of DeflateStored: writes out the bytes that are left. */
    method StoredEnd(flush: Flush) returns (state: BlockState)
      requires Valid() && StoredState() && lookahead == 0 && Apart() && Coding() && Copying()
      modifies `syms, `emitted, `blockStart, `insert, coder.Repr
      ensures Valid() && StoredState() && Held() == 0 && Coded(state) && insert == 0
      ensures lookahead == 0 && input == old(input) && nextIn == old(nextIn) && base == old(base)
      ensures prescribed == old(prescribed)
      ensures |coder.blocks| == |old(coder.blocks)| + if flush.Finish? || old(Held()) > 0 then 1 else 0
      ensures state.NeedMore? || state.BlockDone? <==> !flush.Finish?
    {
      hide Covers, Within, Holds, Chains, Tracks, Coding, Finished;
      insert := 0;
      if flush == Flush.Finish {
        var full := FlushBlock(1);
        state := if full then FinishStarted else FinishDone;
      } else {
        var full := false;
        if strstart > blockStart {
          full := FlushBlock(0);
        }
        state := if full then NeedMore else BlockDone;
      }
    }

    // ---------- whole runs ----------

    /** What holds between two calls of the strategy's or the level's function. */
    ghost predicate Between()
      reads this
    {
      if strategy == HuffmanOnly then Sound(0) && Literally()
      else if strategy == Rle then Sound(0)
      else if level == 0 then StoredState()
      else if level <= 3 then Sound(0) && FastState()
      else Sound(Pending()) && SlowState()
    }

    /** Calls the function of the strategy or the level (deflate). */
    method DeflateSome(flush: Flush) returns (state: BlockState)
      requires Valid() && Between() && Apart() && Coding()
      requires strategy == Rle ==> Copyable()
      modifies this, window, head, prev, coder.Repr
      ensures Valid() && SameStream() && Coded(state) && prescribed == old(prescribed)
      ensures if state.NeedMore? then Between() else Sound(0) && nextIn == [] && lookahead == 0 && syms == []
      ensures flush.NoFlush? ==> state.NeedMore?
      ensures state.NeedMore? && flush.Finish? ==> Ahead() < old(Ahead())
      ensures !state.NeedMore? ==> (state.BlockDone? <==> !flush.Finish?)
    {
      hide Holds, Chains, Tracks, Covers, Within, Coding, Finished;
      if strategy == HuffmanOnly {
        state := DeflateHuff(flush);
      } else if strategy == Rle {
        state := DeflateRle(flush);
      } else if level == 0 {
        state := DeflateStored(flush);
      } else if level <= 3 {
        state := DeflateFast(flush);
      } else {
        state := DeflateSlow(flush);
      }
    }

    /**
      Puts out everything that is left, calling the level's or the strategy's function as often as it asks for more
      output space.
     */
    method RunToEnd()
      requires Valid() && Between() && Apart() && Coding()
      requires strategy == Rle ==> Copyable()
      modifies this, window, head, prev, coder.Repr
      ensures Finished() && input == old(input + nextIn) && prescribed == old(prescribed)
      ensures Covers(emitted, input, |input|) && Within(emitted, MaxDist())
    {
      hide Holds, Chains, Tracks, Covers, Within, Coding, Finished;
      var state := DeflateSome(Flush.Finish);
      while state == NeedMore
        invariant Valid() && SameStream() && !state.BlockDone? && Coded(state)
        invariant prescribed == old(prescribed)
        invariant if state.NeedMore? then Between() else Sound(0) && nextIn == [] && lookahead == 0 && syms == []
        decreases state.NeedMore?, Ahead()
      {
        state := DeflateSome(Flush.Finish);
      }
      assert input + nextIn == input && emitted + syms == emitted;
    }
  }

  /** The parameters that deflateInit2_ accepts: negative or large window bits only choose the wrapper. */
  predicate GoodParameters(level: int, windowBits: int, memLevel: int) {
    -1 <= level <= 9 && 8 <= WindowBits(windowBits) <= 15 && 1 <= memLevel <= 9
  }

  function WindowBits(windowBits: int): int {
    if windowBits < 0 then -windowBits else if windowBits > 15 then windowBits - 16 else windowBits
  }

  /** A compressor for the given parameters, or null (deflateInit2_). */
  method DeflateInit(level: int, windowBits: int, memLevel: int, strategy: Strategy, hash: Hash)
    returns (s: Compressor?)
    ensures s != null <==> GoodParameters(level, windowBits, memLevel)
    ensures s != null ==>
              && fresh(s) && fresh(s.window) && fresh(s.head) && fresh(s.prev) && fresh(s.coder.Repr)
              && s.Apart() && s.Coding() && s.coder.blocks == [] && s.blockStart == 0 && s.syms == [] && s.strstart == 0
              && s.Valid() && s.Sound(0) && s.FastState() && s.SlowState() && s.Initialised() && !s.matchAvailable
              && s.input == [] && s.nextIn == [] && s.level == (if level == -1 then 6 else level)
                 && s.strategy == strategy && s.hash == hash
              && s.wSize == Pow2(Max(WindowBits(windowBits), 9))
              && (level != 0 || Max(WindowBits(windowBits), 9) <= memLevel + 6 ==> s.Copyable())
  {
    var bits := WindowBits(windowBits);
    if !GoodParameters(level, windowBits, memLevel) {
      return null;
    }
    s := new Compressor(if level == -1 then 6 else level, if bits == 8 then 9 else bits, memLevel, strategy, hash);
  }

  /** The first half of a run that ends in a search of bytes never stored to: 765 zeros are all used up. */
  method HighWaterRun(hash: Hash) returns (s: Compressor)
    ensures fresh(s) && fresh(s.window) && fresh(s.head) && fresh(s.prev) && fresh(s.coder.Repr)
    ensures s.Valid() && s.Sound(0) && s.Apart() && s.Coding() && s.strategy == Rle && s.level == 1 && s.wSize == 512
    ensures s.input == seq(765, _ => 0) && s.strstart == 253 && s.lookahead == 0 && s.nextIn == [] && s.Gap()
  {
    hide Holds, Chains, Tracks, Covers, Within, Compressor.Coding, Compressor.Finished, Compressor.Gap,
         Compressor.Initialised, Compressor.Clean;
    assert Pow2(9) == 512;
    s := new Compressor(1, 9, 1, Rle, hash);
    s.nextIn := seq(765, _ => 0);
    var state := NeedMore;
    while state.NeedMore?
      invariant fresh(s) && fresh(s.window) && fresh(s.head) && fresh(s.prev) && fresh(s.coder.Repr)
      invariant s.Valid() && s.Sound(0) && s.Apart() && s.Coding() && s.wSize == 512 && s.level == 1
      invariant s.strategy == Rle && s.input + s.nextIn == seq(765, _ => 0)
      invariant s.highWater < 1024 && (s.base == 0 || (s.base == 512 && s.Gap()))
      invariant state.NeedMore? || (s.nextIn == [] && s.lookahead == 0 && s.strstart < 762)
      decreases s.Ahead(), |s.syms|, state.NeedMore?
    {
      state := s.DeflateRle(OtherFlush);
    }
    assert s.input + [] == s.input;
  }

  /**
    With 258 zeros more, the first search of the next call reads a byte below the high water mark that was never
    stored to.
   */
  method HighWaterExample(hash: Hash) returns (s: Compressor)
    ensures s.readUnstored && s.Valid() && s.input == seq(1023, _ => 0)
  {
    hide Holds, Chains, Tracks, Covers, Within, Compressor.Coding, Compressor.Finished, Compressor.RunUnstored;
    s := HighWaterRun(hash);
    s.nextIn := seq(258, _ => 0);
    s.Refill(0);
    assert s.input == seq(765, _ => 0) + seq(258, _ => 0);
    s.ZerosUnstored();
    var bflush := s.RleSymbol();
    var full := s.FlushIfFull(bflush);
  }

  lemma {:induction false} LiteralsWithin(syms: seq<Symbol>, data: seq<Byte>, maxDist: int)
    requires Within(syms, maxDist)
    ensures Within(syms + Literals(data), maxDist)
  {
    if data == [] {
      assert syms + Literals(data) == syms;
    } else {
      var front, b := data[..|data| - 1], data[|data| - 1];
      LiteralsWithin(syms, front, maxDist);
      WithinMore(syms + Literals(front), Literal(b), maxDist);
      assert syms + Literals(front) + [Literal(b)] == syms + Literals(data);
    }
  }

  /** An empty window, no positions, and no symbols. */
  lemma NothingYet(window: seq<Byte>, head: seq<nat>, prev: seq<nat>, linked: seq<bool>, stored: seq<bool>, w: nat)
    requires 0 < w == |linked| == |prev| && |stored| == 2 * w && forall i :: 0 <= i < |head| ==> head[i] == NIL
    requires (forall i :: 0 <= i < w ==> !linked[i]) && forall i :: 0 <= i < 2 * w ==> !stored[i]
    ensures Holds(window, [], 0, 0) && Chains(head, prev, linked, 0, 0) && Tracks(stored, 0, 0, w)
    ensures Covers([], [], 0) && forall maxDist: int :: Within([], maxDist)
  {
  }

  lemma RepeatsBounds(input: seq<Byte>, n: nat, dist: nat, len: nat)
    requires Repeats(input, n, dist, len)
    ensures 1 <= dist <= n && n + len <= |input|
  {
  }

  /** The distance from one position before. */
  lemma DistanceBefore(s: int, m: int, s': int, m': int)
    requires (s - m) % U32 == (s' - m') % U32
    ensures (s - 1 - m) % U32 == (s' - 1 - m') % U32
  {
  }

  lemma WithinMore(syms: seq<Symbol>, s: Symbol, maxDist: int)
    requires Within(syms, maxDist)
    requires s.Match? ==> ACTUAL_MIN_MATCH <= s.lc + MIN_MATCH <= MAX_MATCH && s.dist <= maxDist
    ensures Within(syms + [s], maxDist)
  {
  }

  /** Raising the bounds weakens what is known of the chains. */
  lemma ChainsMore(head: seq<nat>, prev: seq<nat>, linked: seq<bool>, m: nat, n: nat, bound: nat)
    requires Chains(head, prev, linked, m, n) && m <= bound && n <= bound
    ensures Chains(head, prev, linked, bound, bound)
  {
  }

  lemma ChainsAfter(head: seq<nat>, prev: seq<nat>, linked: seq<bool>, n: nat)
    requires Chains(head, prev, linked, n, n)
    ensures Chains(head, prev, linked, n + 1, n) && Chains(head, prev, linked, n + 1, n + 1)
  {
  }

  /** Entering a position: its link becomes the former head of its chain. */
  lemma ChainsInserted(head: seq<nat>, prev: seq<nat>, linked: seq<bool>, bound: nat, h: nat, str: nat)
    requires Chains(head, prev, linked, bound, bound) && h < |head|
    ensures |linked| == |prev| > 0 && Entry(head[h], linked, bound)
    ensures Chains(head[h := str], prev[str % |prev| := head[h]], linked[str % |prev| := true], Max(bound, str + 1),
              bound)
  {
    var head', prev', linked' := head[h := str], prev[str % |prev| := head[h]], linked[str % |prev| := true];
    forall i | 0 <= i < |head|
      ensures Entry(head'[i], linked', Max(bound, str + 1))
    {
      assert Entry(head[i], linked, bound);
    }
    forall i | 0 <= i < |prev| && linked'[i]
      ensures Entry(prev'[i], linked', bound)
    {
      assert Entry(head[h], linked, bound);
      assert i != str % |prev| ==> Entry(prev[i], linked, bound);
    }
  }

  /** A position that is lowered by the length of the window keeps its link's place. */
  lemma EntryLowered(v: nat, linked: seq<bool>, bound: nat)
    requires |linked| > 0 && Entry(v, linked, bound) && bound >= |linked|
    ensures Entry(Max(v - |linked|, NIL), linked, bound - |linked|)
  {
    if v > |linked| {
      ModOfSum(v - |linked|, 1, |linked|);
      assert v - |linked| + 1 * |linked| == v;
    }
  }

  /**
    Lowering all entries by the length of the window keeps the chains, whatever is in the links that were never
    written.
   */
  lemma ChainsLowered(head: seq<nat>, prev: seq<nat>, linked: seq<bool>, bound: nat, head': seq<nat>, prev': seq<nat>)
    requires Chains(head, prev, linked, bound, bound) && bound >= |prev| && |head'| == |head| && |prev'| == |prev|
    requires forall i :: 0 <= i < |head| ==> head'[i] == Max(head[i] - |prev|, NIL)
    requires forall i :: 0 <= i < |prev| ==> prev'[i] == Max(prev[i] - |prev|, NIL)
    ensures Chains(head', prev', linked, bound - |prev|, bound - |prev|)
  {
    forall i | 0 <= i < |head|
      ensures Entry(head'[i], linked, bound - |prev|)
    {
      EntryLowered(head[i], linked, bound);
    }
    forall i | 0 <= i < |prev| && linked[i]
      ensures Entry(prev'[i], linked, bound - |prev|)
    {
      EntryLowered(prev[i], linked, bound);
    }
  }

  /** What is known to be stored after moving the upper half of the window to the lower one. */
  lemma TracksSlid(stored: seq<bool>, data: nat, high: nat, w: nat)
    requires |stored| == 2 * w && Tracks(stored, data, high, w) && w < data
    ensures Tracks(stored[w..] + stored[w..], data - w, high, w)
  {
  }

  /** The stored bytes after `n` more stores from `at` on. */
  ghost function StoredAt(stored: seq<bool>, at: nat, n: nat): (r: seq<bool>)
    requires at + n <= |stored|
    ensures |r| == |stored| && forall i :: 0 <= i < |r| ==> (r[i] <==> stored[i] || at <= i < at + n)
  {
    stored[..at] + seq(n, _ => true) + stored[at + n..]
  }

  /** Zeroing bytes from the data's end or from the mark on raises the mark. */
  lemma TracksZeroed(stored: seq<bool>, data: nat, high: nat, w: nat)
    requires |stored| == 2 * w && Tracks(stored, data, Max(high, data), w) && high <= |stored| && 0 < w
    ensures high < data ==> forall n: nat | data + n <= |stored| ::
              Tracks(StoredAt(stored, data, n), data, data + n, w)
                  && StoredAt(stored, data, n)[w - 1] == (stored[w - 1] || data <= w - 1 < data + n)
    ensures high >= data ==> forall n: nat | high + n <= |stored| ::
              Tracks(StoredAt(stored, high, n), data, high + n, w)
                  && StoredAt(stored, high, n)[w - 1] == (stored[w - 1] || high <= w - 1 < high + n)
    ensures w <= high < data ==> stored[w - 1]
    ensures w <= data ==> stored[w - 1]
    ensures high < w && high >= data ==> !stored[w - 1]
  {
  }

  lemma TracksData(stored: seq<bool>, data: nat, mark: nat, w: nat)
    requires Tracks(stored, data, mark, w) && 0 < w
    ensures data >= w ==> stored[w - 1]
  {
  }

  /** Storing `n` bytes behind the data makes them data. */
  lemma TracksRead(stored: seq<bool>, data: nat, n: nat, high: nat, w: nat)
    requires Tracks(stored, data, Max(high, data), w) && data + n <= |stored| && 0 < w
    ensures Tracks(StoredAt(stored, data, n), data + n, Max(high, data + n), w)
    ensures StoredAt(stored, data, n)[w - 1] <==> stored[w - 1] || data + n >= w
  {
  }

  /** The data in the window are the same, if only bytes behind them were changed. */
  lemma HoldsSame(window: seq<Byte>, window': seq<Byte>, input: seq<Byte>, base: nat, n: nat)
    requires Holds(window, input, base, n) && |window| == |window'| && forall i :: 0 <= i < n ==>
              window'[i] == window[i]
    ensures Holds(window', input, base, n)
  {
  }

  /** Lowering both positions keeps their distance in 32 bits. */
  lemma SameDistance(s: int, m: int, w: int)
    ensures (s - w - (m - w) % U32) % U32 == (s - m) % U32
  {
    var k := (m - w) / U32;
    assert (m - w) % U32 == m - w - k * U32;
    assert s - w - (m - w) % U32 == s - m + k * U32;
    ModOfSum(s - m, k, U32);
  }

  lemma WrapsBack(s: int, x: int)
    ensures ((s + x) % U32 - s) % U32 == x % U32
  {
    var k := (s + x) / U32;
    assert (s + x) % U32 - s == x + (-k) * U32;
    ModOfSum(x, -k, U32);
  }

  lemma SameStart(window: seq<Byte>, m: nat, scan: nat)
    requires m < scan && scan + 4 <= |window| && window[scan..scan + 4] == window[m..m + 4]
    ensures SameBytes(window, m, scan, 4)
  {
    forall k | scan <= k < scan + 4
      ensures window[k] == window[k - (scan - m)]
    {
      assert window[scan..scan + 4][k - scan] == window[m..m + 4][k - scan];
    }
  }

  /** What the first difference of two words says about the bytes of the window. */
  lemma WordBytes(window: seq<Byte>, m: nat, scan: nat, off: nat, sv: seq<Byte>, mv: seq<Byte>)
    requires SameBytes(window, m, scan, off) && scan + off + 8 <= |window|
    requires sv == window[scan + off..scan + off + 8] && mv == window[m + off..m + off + 8]
    ensures var n := WordCompare.EqualBytes(sv, mv);
            && SameBytes(window, m, scan, off + n) && n <= 8 && (sv == mv ==> n == 8)
            && (sv != mv ==> n < 8 && window[m + off + n] != window[scan + off + n])
  {
    assert m < scan;
    hide SameBytes, WordCompare.EqualBytes;
    var n := WordCompare.EqualBytes(sv, mv);
    SameMore(window, m, scan, off, n, sv, mv);
    assert sv[..8] == sv && mv[..8] == mv;
  }

  lemma SameLess(window: seq<Byte>, m: nat, scan: nat, off: nat, len: nat)
    requires SameBytes(window, m, scan, off) && len <= off
    ensures SameBytes(window, m, scan, len)
  {
  }

  /** The next word adds as many equal bytes as it has before its first difference. */
  lemma SameMore(window: seq<Byte>, m: nat, scan: nat, off: nat, n: nat, sv: seq<Byte>, mv: seq<Byte>)
    requires SameBytes(window, m, scan, off) && scan + off + 8 <= |window| && n <= 8
    requires sv == window[scan + off..scan + off + 8] && mv == window[m + off..m + off + 8] && sv[..n] == mv[..n]
    ensures SameBytes(window, m, scan, off + n)
  {
    forall k | scan + off <= k < scan + off + n
      ensures window[k] == window[k - (scan - m)]
    {
      var i := k - (scan + off);
      assert sv[..n][i] == mv[..n][i];
      assert sv[i] == window[k] && mv[i] == window[m + off + i];
    }
  }
}
