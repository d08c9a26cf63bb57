/** What the compressor's dictionary holds, and which match a search of it gives (insert_string, longest_match). */
module MatchSearch {
  import opened Arithmetic

  const MAX_MATCH: nat := 258
  const ACTUAL_MIN_MATCH: nat := 4
  const NIL: nat := 0

  // ---------- equal bytes ----------

  /** The bytes at `scan` and at `match` are equal for `len` bytes. */
  predicate SameBytes(window: seq<Byte>, match_: nat, scan: nat, len: nat) {
    match_ < scan && scan + len <= |window| && forall k :: scan <= k < scan + len ==>
        window[k] == window[k - (scan - match_)]
  }

  /** How many bytes are equal from the `k`-th on, counting from the first. */
  function EqualFrom(window: seq<Byte>, m: nat, scan: nat, k: nat): (n: nat)
    requires m < scan && scan + MAX_MATCH <= |window| && k <= MAX_MATCH
    ensures k <= n <= MAX_MATCH
    decreases MAX_MATCH - k
  {
    if k < MAX_MATCH && window[m + k] == window[scan + k] then EqualFrom(window, m, scan, k + 1) else k
  }

  /** The length of the match that begins at `m`: how many bytes are equal, but at most as many as a match may have. */
  function Extent(window: seq<Byte>, m: nat, scan: nat): (n: nat)
    ensures n <= MAX_MATCH
  {
    if m < scan && scan + MAX_MATCH <= |window| then EqualFrom(window, m, scan, 0) else 0
  }

  lemma {:induction false} EqualFromIs(window: seq<Byte>, m: nat, scan: nat, k: nat, len: nat)
    requires m < scan && scan + MAX_MATCH <= |window| && k <= len <= MAX_MATCH
    requires SameBytes(window, m, scan, len) && (len < MAX_MATCH ==> window[m + len] != window[scan + len])
    ensures EqualFrom(window, m, scan, k) == len
    decreases len - k
  {
    if k < len {
      assert window[scan + k] == window[scan + k - (scan - m)];
      EqualFromIs(window, m, scan, k + 1, len);
    }
  }

  /** The number of equal bytes that are followed by a difference, or are as many as a match may have. */
  lemma ExtentIs(window: seq<Byte>, m: nat, scan: nat, len: nat)
    requires m < scan && scan + MAX_MATCH <= |window| && len <= MAX_MATCH
    requires SameBytes(window, m, scan, len) && (len < MAX_MATCH ==> window[m + len] != window[scan + len])
    ensures Extent(window, m, scan) == len
  {
    EqualFromIs(window, m, scan, 0, len);
  }

  lemma {:induction false} EqualFromSame(window: seq<Byte>, m: nat, scan: nat, k: nat)
    requires m < scan && scan + MAX_MATCH <= |window| && k <= MAX_MATCH && SameBytes(window, m, scan, k)
    ensures var n := EqualFrom(window, m, scan, k);
            SameBytes(window, m, scan, n) && (n < MAX_MATCH ==> window[m + n] != window[scan + n])
    decreases MAX_MATCH - k
  {
    if k < MAX_MATCH && window[m + k] == window[scan + k] {
      EqualFromSame(window, m, scan, k + 1);
    }
  }

  /** A match's extent: that many bytes are equal, and the next one is not. */
  lemma ExtentSame(window: seq<Byte>, m: nat, scan: nat)
    requires m < scan && scan + MAX_MATCH <= |window|
    ensures var n := Extent(window, m, scan);
            SameBytes(window, m, scan, n) && (n < MAX_MATCH ==> window[m + n] != window[scan + n])
  {
    EqualFromSame(window, m, scan, 0);
  }

  lemma ExtentPositive(window: seq<Byte>, m: nat, scan: nat)
    requires Extent(window, m, scan) > 0
    ensures m < scan && scan + MAX_MATCH <= |window|
  {
  }

  /** No more bytes are equal than the extent says. */
  lemma ExtentMost(window: seq<Byte>, m: nat, scan: nat, len: nat)
    requires scan + MAX_MATCH <= |window| && len <= MAX_MATCH && SameBytes(window, m, scan, len)
    ensures len <= Extent(window, m, scan)
  {
    hide Extent;
    var n := Extent(window, m, scan);
    if n < len {
      assert window[scan + n] == window[scan + n - (scan - m)];
    }
    ExtentSame(window, m, scan);
  }

  lemma SameFour(window: seq<Byte>, m: nat, scan: nat, n: nat, k: nat)
    requires SameBytes(window, m, scan, n) && k + 4 <= n
    ensures window[m + k..m + k + 4] == window[scan + k..scan + k + 4]
  {
    var a, b := window[m + k..m + k + 4], window[scan + k..scan + k + 4];
    forall i | 0 <= i < 4
      ensures a[i] == b[i]
    {
      assert window[scan + k + i] == window[scan + k + i - (scan - m)];
    }
  }

  /** A candidate whose first four bytes differ, or those up to the one behind the best match, is no better. */
  lemma UnlikeIsNoBetter(window: seq<Byte>, m: nat, scan: nat, best: nat)
    requires 3 <= best <= MAX_MATCH && m < scan && scan + MAX_MATCH + 2 <= |window|
    requires window[m + best - 3..m + best + 1] != window[scan + best - 3..scan + best + 1]
              || window[m..m + 4] != window[scan..scan + 4]
    ensures Extent(window, m, scan) <= best
  {
    hide Extent, SameBytes;
    if Extent(window, m, scan) > best {
      LikeUpTo(window, m, scan, best);
    }
  }

  lemma LikeUpTo(window: seq<Byte>, m: nat, scan: nat, best: nat)
    requires 3 <= best && m < scan && scan + MAX_MATCH + 2 <= |window| && Extent(window, m, scan) > best
    ensures window[m + best - 3..m + best + 1] == window[scan + best - 3..scan + best + 1]
    ensures window[m..m + 4] == window[scan..scan + 4]
  {
    hide Extent, SameBytes;
    ExtentSame(window, m, scan);
    SameFour(window, m, scan, Extent(window, m, scan), best - 3);
    SameFour(window, m, scan, Extent(window, m, scan), 0);
  }

  // ---------- the candidates on a chain ----------

  /**
    The positions that a search looks at: `cur`, and those that the links lead to as long as they are beyond `limit`.
   */
  function Candidates(prev: seq<nat>, cur: nat, limit: nat, rounds: nat): (c: seq<nat>)
    ensures |c| >= 1 && c[0] == cur
    decreases rounds
  {
    if |prev| > 0 && rounds > 1 && prev[cur % |prev|] > limit then
      [cur] + Candidates(prev, prev[cur % |prev|], limit, rounds - 1)
    else [cur]
  }

  /**
    Every candidate is the link of the one before; they end where a link is not beyond the limit, or after `rounds`.
   */
  lemma {:induction false} CandidatesFollow(prev: seq<nat>, cur: nat, limit: nat, rounds: nat)
    requires |prev| > 0 && rounds >= 1
    ensures var c := Candidates(prev, cur, limit, rounds);
            && |c| <= rounds
            && (forall k :: 1 <= k < |c| ==> c[k] == prev[c[k - 1] % |prev|] && c[k] > limit)
            && (|c| == rounds || prev[c[|c| - 1] % |prev|] <= limit)
    decreases rounds
  {
    var c := Candidates(prev, cur, limit, rounds);
    if rounds > 1 && prev[cur % |prev|] > limit {
      var d := Candidates(prev, prev[cur % |prev|], limit, rounds - 1);
      CandidatesFollow(prev, prev[cur % |prev|], limit, rounds - 1);
      assert c == [cur] + d;
      forall k | 1 <= k < |c|
        ensures c[k] == prev[c[k - 1] % |prev|] && c[k] > limit
      {
        assert c[k] == d[k - 1] && (k > 1 ==> c[k - 1] == d[k - 2]);
      }
    }
  }

  /** What was found: where a match begins, and its length. */
  datatype Finding = Finding(start: nat, len: nat)

  /** The first of the longest candidates that are longer than `best`; one that is `nice` ends the search. */
  function Longest(window: seq<Byte>, scan: nat, c: seq<nat>, best: Finding, nice: nat): Finding {
    if c == [] then best
    else
      var n := Extent(window, c[0], scan);
      if n <= best.len then Longest(window, scan, c[1..], best, nice)
      else if n >= nice then Finding(c[0], n)
      else Longest(window, scan, c[1..], Finding(c[0], n), nice)
  }

  lemma LongestNone(window: seq<Byte>, scan: nat, best: Finding, nice: nat)
    ensures Longest(window, scan, [], best, nice) == best
  {
  }

  lemma LongestNext(window: seq<Byte>, scan: nat, cur: nat, c: seq<nat>, best: Finding, nice: nat)
    ensures Longest(window, scan, [cur] + c, best, nice) ==
            var n := Extent(window, cur, scan);
            if n <= best.len then Longest(window, scan, c, best, nice)
            else if n >= nice then Finding(cur, n)
            else Longest(window, scan, c, Finding(cur, n), nice)
  {
    assert ([cur] + c)[1..] == c;
  }

  /** The result is a candidate that is longer, with the extent it says, or what was best before. */
  lemma {:induction false} LongestIsCandidate(window: seq<Byte>, scan: nat, c: seq<nat>, best: Finding, nice: nat)
    ensures var r := Longest(window, scan, c, best, nice);
            r == best || (r.start in c && r.len == Extent(window, r.start, scan) && r.len > best.len)
  {
    hide Extent;
    if c != [] {
      var n := Extent(window, c[0], scan);
      LongestIsCandidate(window, scan, c[1..], best, nice);
      LongestIsCandidate(window, scan, c[1..], Finding(c[0], n), nice);
    }
  }

  /** It is at least as long as every candidate up to the first one that is nice. */
  lemma {:induction false} LongestIsLongest(window: seq<Byte>, scan: nat, c: seq<nat>, best: Finding, nice: nat, k: nat)
    requires k < |c| && forall j :: 0 <= j < k ==> Extent(window, c[j], scan) < nice
    ensures Longest(window, scan, c, best, nice).len >= Extent(window, c[k], scan)
    ensures Longest(window, scan, c, best, nice).len >= best.len
  {
    hide Extent;
    var n := Extent(window, c[0], scan);
    LongestIsCandidate(window, scan, c[1..], best, nice);
    LongestIsCandidate(window, scan, c[1..], Finding(c[0], n), nice);
    if k > 0 {
      var better := if n <= best.len then best else Finding(c[0], n);
      forall j | 0 <= j < k - 1
        ensures Extent(window, c[1..][j], scan) < nice
      {
        assert c[1..][j] == c[j + 1];
      }
      assert Extent(window, c[0], scan) < nice && c[1..][k - 1] == c[k];
      LongestIsLongest(window, scan, c[1..], better, nice, k - 1);
    }
  }

  /** A search that has come to the candidate `cur`. */
  function SearchFrom(window: seq<Byte>, prev: seq<nat>, scan: nat, cur: nat, limit: nat, rounds: nat, best: Finding,
      nice: nat): Finding
  {
    Longest(window, scan, Candidates(prev, cur, limit, rounds), best, nice)
  }

  /** One candidate of a search. */
  lemma SearchOne(window: seq<Byte>, prev: seq<nat>, scan: nat, cur: nat, limit: nat, rounds: nat, best: Finding,
      nice: nat)
    requires |prev| > 0
    ensures var n, next := Extent(window, cur, scan), prev[cur % |prev|];
            var better := if n <= best.len then best else Finding(cur, n);
            SearchFrom(window, prev, scan, cur, limit, rounds, best, nice) ==
            if n > best.len && n >= nice then better
            else if rounds > 1 && next > limit then SearchFrom(window, prev, scan, next, limit, rounds - 1, better,
                nice)
            else better
  {
    hide Extent, Longest;
    var n, next := Extent(window, cur, scan), prev[cur % |prev|];
    var better := if n <= best.len then best else Finding(cur, n);
    LongestNone(window, scan, better, nice);
    var c := if rounds > 1 && next > limit then Candidates(prev, next, limit, rounds - 1) else [];
    assert Candidates(prev, cur, limit, rounds) == [cur] + c;
    LongestNext(window, scan, cur, c, best, nice);
  }

  // ---------- the dictionary ----------

  /** The heads of the hash chains, and the link of every position in the window. */
  datatype Dict = Dict(head: seq<nat>, prev: seq<nat>)

  /** Any function of four bytes. */
  type Hash = (Byte, Byte, Byte, Byte) -> nat

  /** The chain of the four bytes at `p`, of `n` chains. */
  function Key(hash: Hash, window: seq<Byte>, p: nat, n: nat): (h: nat)
    requires p + 4 <= |window| && n > 0
    ensures h < n
  {
    hash(window[p], window[p + 1], window[p + 2], window[p + 3]) % n
  }

  /** Enters a position at the head of a chain. */
  function Enter(d: Dict, h: nat, str: nat): (r: Dict)
    requires h < |d.head| && |d.prev| > 0
    ensures |r.head| == |d.head| && |r.prev| == |d.prev|
  {
    Dict(d.head[h := str], d.prev[str % |d.prev| := d.head[h]])
  }

  /** Enters `n` positions from `from` on. */
  function EnterAll(hash: Hash, window: seq<Byte>, d: Dict, from: nat, n: nat): (r: Dict)
    requires |d.head| > 0 && |d.prev| > 0 && (n > 0 ==> from + n + 3 <= |window|)
    ensures |r.head| == |d.head| && |r.prev| == |d.prev|
    decreases n
  {
    if n == 0 then d
    else
      var e := EnterAll(hash, window, d, from, n - 1);
      Enter(e, Key(hash, window, from + n - 1, |d.head|), from + n - 1)
  }

  /** Two stretches of positions, one behind the other. */
  lemma {:induction false} EnterMore(hash: Hash, window: seq<Byte>, d: Dict, from: nat, m: nat, n: nat)
    requires |d.head| > 0 && |d.prev| > 0 && (m + n > 0 ==> from + m + n + 3 <= |window|)
    ensures EnterAll(hash, window, d, from, m + n)
         == EnterAll(hash, window, EnterAll(hash, window, d, from, m), from + m, n)
    decreases n
  {
    if n > 0 {
      EnterMore(hash, window, d, from, m, n - 1);
      assert m + n - 1 == m + (n - 1);
    }
  }

  /** Only the bytes of the positions that are entered matter. */
  lemma {:induction false} EnterSame(hash: Hash, window: seq<Byte>, window': seq<Byte>, d: Dict, from: nat, n: nat)
    requires |d.head| > 0 && |d.prev| > 0 && (n > 0 ==> from + n + 3 <= |window| && from + n + 3 <= |window'|)
    requires n > 0 ==> forall i :: from <= i < from + n + 3 ==> window[i] == window'[i]
    ensures EnterAll(hash, window, d, from, n) == EnterAll(hash, window', d, from, n)
    decreases n
  {
    if n > 0 {
      EnterSame(hash, window, window', d, from, n - 1);
    }
  }

  /** The head of a chain is the last position that was entered in it. */
  lemma {:induction false} HeadIsLast(hash: Hash, window: seq<Byte>, d: Dict, from: nat, n: nat, p: nat)
    requires |d.head| > 0 && |d.prev| > 0 && from <= p < from + n && from + n + 3 <= |window|
    requires forall q :: p < q < from + n ==> Key(hash, window, q, |d.head|) != Key(hash, window, p, |d.head|)
    ensures EnterAll(hash, window, d, from, n).head[Key(hash, window, p, |d.head|)] == p
    decreases n
  {
    if p < from + n - 1 {
      HeadIsLast(hash, window, d, from, n - 1, p);
    }
  }

  /** A position's link is the one that was entered in its chain before, unless the place was taken since. */
  lemma {:induction false} LinkIsBefore(hash: Hash, window: seq<Byte>, d: Dict, from: nat, n: nat, p: nat)
    requires |d.head| > 0 && |d.prev| > 0 && from <= p < from + n <= p + |d.prev| && from + n + 3 <= |window|
    ensures EnterAll(hash, window, d, from, n).prev[p % |d.prev|]
         == EnterAll(hash, window, d, from, p - from).head[Key(hash, window, p, |d.head|)]
    decreases n
  {
    if p < from + n - 1 {
      LinkIsBefore(hash, window, d, from, n - 1, p);
      OtherPlace(p, from + n - 1, |d.prev|);
    }
  }

  lemma OtherPlace(p: nat, q: nat, w: nat)
    requires p < q < p + w
    ensures w > 0 && p % w != q % w
  {
    if p % w == q % w {
      DivMod(p, w);
      DivMod(q, w);
      var k := q / w - p / w;
      assert q - p == k * w by {
        MulDistribute(q / w, -(p / w), w);
      }
      if k >= 1 {
        MulMonotone(w, 1, k);
      } else {
        MulMonotone(w, k, 0);
      }
    }
  }

  /** All positions lowered by `w`; those that fall out of the window become empty. */
  function Lowered(d: Dict, w: nat): (r: Dict)
    ensures |r.head| == |d.head| && |r.prev| == |d.prev|
  {
    Dict(seq(|d.head|, i requires 0 <= i < |d.head| => Max(d.head[i] - w, NIL)),
         seq(|d.prev|, i requires 0 <= i < |d.prev| => Max(d.prev[i] - w, NIL)))
  }

  lemma LoweredIs(d: Dict, w: nat, head: seq<nat>, prev: seq<nat>)
    requires |head| == |d.head| && |prev| == |d.prev|
    requires forall i :: 0 <= i < |head| ==> head[i] == Max(d.head[i] - w, NIL)
    requires forall i :: 0 <= i < |prev| ==> prev[i] == Max(d.prev[i] - w, NIL)
    ensures Dict(head, prev) == Lowered(d, w)
  {
  }
}
