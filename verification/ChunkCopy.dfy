/** Copying matches sixteen bytes at a time (zlib's chunkcopy.h). */
module ChunkCopy {
  import opened Arithmetic

  const CHUNK: nat := 16

  /** The value at position `k` when the `d` bytes from `b` on are repeated. */
  function Cycle(m: seq<Byte>, b: nat, d: nat, k: nat): Byte
    requires d >= 1 && b + d <= |m| && k >= b
  {
    m[b + (k - b) % d]
  }

  lemma CycleShift(m: seq<Byte>, b: nat, d: nat, k: nat, j: nat)
    requires d >= 1 && b + d <= |m| && k >= b
    ensures j * d >= 0 && Cycle(m, b, d, k + j * d) == Cycle(m, b, d, k)
  {
    MulPositive(j, d);
    ModOfSum(k - b, j, d);
  }

  lemma CycleStart(m: seq<Byte>, b: nat, d: nat, k: nat)
    requires d >= 1 && b + d <= |m| && b <= k < b + d
    ensures Cycle(m, b, d, k) == m[k]
  {
    DivModUnique(k - b, d, 0, k - b);
  }

  /** The bytes from `lo` to `hi` repeat the `d` bytes from `b` on of `m0`. */
  ghost predicate Repeats(m: seq<Byte>, m0: seq<Byte>, b: nat, d: nat, lo: nat, hi: nat) {
    d >= 1 && b + d <= |m0| && b <= lo && hi <= |m| && forall k :: lo <= k < hi ==> m[k] == Cycle(m0, b, d, k)
  }

  /** A copy by any multiple of the period continues the repetition. */
  lemma {:induction false} RepeatsOn(m: seq<Byte>, m0: seq<Byte>, b: nat, d: nat, j: nat, out: nat, hi: nat)
    requires Repeats(m, m0, b, d, b, out) && j >= 1 && j * d >= 0 && out == b + j * d && out <= hi <= |m|
    requires forall k :: out <= k < hi ==> m[k] == m[k - j * d]
    ensures Repeats(m, m0, b, d, b, hi)
  {
    if out < hi {
      RepeatsOn(m, m0, b, d, j, out, hi - 1);
      CycleShift(m0, b, d, hi - 1 - j * d, j);
      MulMonotone(d, 1, j);
    }
  }

  /** Sixteen bytes at once: a load and then a store. */
  method CopyChunk(dst: array<Byte>, out: nat, src: array<Byte>, from: nat)
    requires out + CHUNK <= dst.Length && from + CHUNK <= src.Length
    modifies dst
    ensures forall k :: out <= k < out + CHUNK ==> dst[k] == old(src[k - out + from])
    ensures forall k :: 0 <= k < dst.Length && !(out <= k < out + CHUNK) ==> dst[k] == old(dst[k])
  {
    var v := src[from..from + CHUNK];
    forall k | out <= k < out + CHUNK {
      dst[k] := v[k - out];
    }
  }

  /**
    Copies `len` bytes; within one buffer the distance must be a chunk at least, or as long as the copy.
    A short copy may overwrite the rest of a chunk.
   */
  method ChunkcopyCore(dst: array<Byte>, out: nat, src: array<Byte>, from: nat, len: nat) returns (end: nat)
    requires len >= 1 && out + Max(CHUNK, len) <= dst.Length && from + Max(CHUNK, len) <= src.Length
    requires src == dst ==> from < out && (out - from >= CHUNK || len <= out - from)
    modifies dst
    ensures end == out + len
    ensures forall k :: out <= k < end ==> dst[k] == src[k - out + from]
    ensures forall k :: 0 <= k < dst.Length && !(out <= k < out + Max(CHUNK, len)) ==> dst[k] == old(dst[k])
    ensures src != dst ==> src[..] == old(src[..])
  {
    var bump := (len - 1) % CHUNK + 1;
    CopyChunk(dst, out, src, from);
    end := out + bump;
    var f := from + bump;
    var left := (len - 1) / CHUNK;
    while left > 0
      invariant left >= 0 && end + CHUNK * left == out + len && f - from == end - out >= bump
      invariant len <= CHUNK ==> left == 0
      invariant forall k :: out <= k < end ==> dst[k] == src[k - out + from]
      invariant forall k :: 0 <= k < dst.Length && !(out <= k < out + Max(CHUNK, len)) ==> dst[k] == old(dst[k])
      invariant src != dst ==> src[..] == old(src[..])
    {
      CopyChunk(dst, end, src, f);
      end := end + CHUNK;
      f := f + CHUNK;
      left := left - 1;
    }
  }

  /** A copy of 8, 4, 2 or 1 bytes, if that bit of the length is set; the copy began at `out` and `from`. */
  method CopySmall(dst: array<Byte>, ghost out: nat, src: array<Byte>, ghost from: nat, at: nat, f: nat, n: nat,
      bit: bool)
    returns (at': nat, f': nat)
    requires bit ==> at + n <= dst.Length && f + n <= src.Length
    requires out <= at <= dst.Length && f - from == at - out && f <= src.Length
    requires src == dst && bit ==> f + n <= at
    requires forall k :: out <= k < at ==> dst[k] == src[k - out + from]
    modifies dst
    ensures at' == at + (if bit then n else 0) && f' - from == at' - out
    ensures at' <= dst.Length && f' <= src.Length
    ensures forall k :: out <= k < at' ==> dst[k] == src[k - out + from]
    ensures forall k :: 0 <= k < dst.Length && !(at <= k < at') ==> dst[k] == old(dst[k])
    ensures src != dst ==> src[..] == old(src[..])
  {
    at', f' := at, f;
    if bit {
      var v := src[f..f + n];
      forall k | at <= k < at + n {
        dst[k] := v[k - at];
      }
      at', f' := at + n, f + n;
    }
  }

  /** Copies fewer than sixteen bytes by the bits of their number. */
  method CopyByBits(dst: array<Byte>, out: nat, src: array<Byte>, from: nat, len: nat, b8: bool, b4: bool, b2: bool,
      b1: bool)
    returns (end: nat)
    requires len == (if b8 then 8 else 0) + (if b4 then 4 else 0) + (if b2 then 2 else 0) + (if b1 then 1 else 0)
    requires out + len <= dst.Length && from + len <= src.Length && (src == dst ==> from + len <= out)
    modifies dst
    ensures end == out + len
    ensures forall k :: out <= k < end ==> dst[k] == src[k - out + from]
    ensures forall k :: 0 <= k < dst.Length && !(out <= k < end) ==> dst[k] == old(dst[k])
    ensures src != dst ==> src[..] == old(src[..])
  {
    end := out;
    var f := from;
    end, f := CopySmall(dst, out, src, from, end, f, 8, b8);
    end, f := CopySmall(dst, out, src, from, end, f, 4, b4);
    end, f := CopySmall(dst, out, src, from, end, f, 2, b2);
    end, f := CopySmall(dst, out, src, from, end, f, 1, b1);
  }

  /** Like ChunkcopyCore, but nothing at or beyond `limit` is written. */
  method ChunkcopyCoreSafe(dst: array<Byte>, out: nat, src: array<Byte>, from: nat, len: nat, limit: nat)
    returns (end: nat)
    requires len >= 1 && out + len <= limit <= dst.Length && from + len <= src.Length
    requires limit - out >= CHUNK ==> from + Max(CHUNK, len) <= src.Length
    requires src == dst ==> from < out && (out - from >= CHUNK || len <= out - from)
    modifies dst
    ensures end == out + len
    ensures forall k :: out <= k < end ==> dst[k] == src[k - out + from]
    ensures forall k :: 0 <= k < dst.Length && !(out <= k < limit) ==> dst[k] == old(dst[k])
    ensures src != dst ==> src[..] == old(src[..])
  {
    if limit - out < CHUNK {
      end := CopyByBits(dst, out, src, from, len, len / 8 % 2 == 1, len / 4 % 2 == 1, len / 2 % 2 == 1, len % 2 == 1);
    } else {
      end := ChunkcopyCore(dst, out, src, from, len);
    }
  }

  lemma RepeatsStart(m0: seq<Byte>, b: nat, d: nat)
    requires d >= 1 && b + d <= |m0|
    ensures Repeats(m0, m0, b, d, b, b + d)
  {
    forall k | b <= k < b + d
      ensures m0[k] == Cycle(m0, b, d, k)
    {
      CycleStart(m0, b, d, k);
    }
  }

  /** Copying what is repeated so far behind itself doubles it. */
  lemma UnrollStep(m: seq<Byte>, m': seq<Byte>, m0: seq<Byte>, b: nat, d: nat, p: nat, end: nat)
    requires Repeats(m, m0, b, d, b, end) && Multiple(p, d) && end == b + p && p < CHUNK && end + CHUNK <= |m| == |m'|
    requires forall k :: 0 <= k < end ==> m'[k] == m[k]
    requires forall k :: end <= k < end + CHUNK ==> m'[k] == m[k - end + b]
    ensures Repeats(m', m0, b, d, b, end + p)
  {
    var j: nat :| j >= 1 && j * d == p;
    RepeatsOn(m', m0, b, d, j, end, end + p);
  }

  /** The distance is a whole number of periods. */
  ghost predicate Multiple(p: nat, d: nat) {
    exists j: nat :: j >= 1 && j * d == p
  }

  lemma MultipleOne(d: nat)
    ensures Multiple(d, d)
  {
    assert 1 * d == d;
  }

  lemma MultipleTwice(p: nat, d: nat)
    requires Multiple(p, d)
    ensures Multiple(p + p, d)
  {
    var j: nat :| j >= 1 && j * d == p;
    assert (j + j) * d == p + p;
  }

  /** Doubles the distance by short copies until it is a chunk, or the rest fits into it; longer ones stay. */
  method ChunkunrollRelaxed(mem: array<Byte>, out: nat, dist: nat, len: nat)
    returns (end: nat, dist': nat, len': nat)
    requires 1 <= dist <= out <= mem.Length && len >= 1 && (dist < CHUNK ==> out + 2 * CHUNK <= mem.Length)
    modifies mem
    ensures end == out - dist + dist' && end + len' == out + len && len' >= 1
    ensures Multiple(dist', dist) && dist' >= dist && (dist' >= CHUNK || dist' >= len')
    ensures if dist < CHUNK then dist' < 2 * CHUNK else dist' == dist
    ensures Repeats(mem[..], old(mem[..]), out - dist, dist, out - dist, end)
    ensures dist >= CHUNK ==> mem[..] == old(mem[..])
    ensures forall k :: 0 <= k < mem.Length && !(out <= k < out + 2 * CHUNK) ==> mem[k] == old(mem[k])
  {
    hide Repeats, Multiple;
    ghost var m0 := mem[..];
    var b := out - dist;
    end, dist', len' := out, dist, len;
    RepeatsStart(m0, b, dist);
    MultipleOne(dist);
    while dist' < len' && dist' < CHUNK
      invariant end == b + dist' && end + len' == out + len && len' >= 1
      invariant Multiple(dist', dist) && dist <= dist'
      invariant if dist < CHUNK then dist' < 2 * CHUNK else dist' == dist && mem[..] == m0
      invariant Repeats(mem[..], m0, b, dist, b, end)
      invariant forall k :: 0 <= k < mem.Length && !(out <= k < out + 2 * CHUNK) ==> mem[k] == m0[k]
      decreases len'
    {
      ghost var m := mem[..];
      CopyChunk(mem, end, mem, b);
      UnrollStep(m, mem[..], m0, b, dist, dist', end);
      end := end + dist';
      len' := len' - dist';
      MultipleTwice(dist', dist);
      dist' := dist' + dist';
    }
  }

  /** A vector that repeats the `p` bytes at `from`. */
  method LoadDup(mem: array<Byte>, from: nat, p: nat) returns (v: seq<Byte>)
    requires p in {1, 2, 4, 8} && from + p <= mem.Length
    ensures |v| == CHUNK && forall i :: 0 <= i < CHUNK ==> v[i] == mem[from + i % p]
  {
    v := seq(CHUNK, i requires 0 <= i < CHUNK reads mem => mem[from + i % p]);
  }

  method StoreVector(mem: array<Byte>, out: nat, v: seq<Byte>)
    requires |v| == CHUNK && out + CHUNK <= mem.Length
    modifies mem
    ensures forall k :: out <= k < out + CHUNK ==> mem[k] == v[k - out]
    ensures forall k :: 0 <= k < mem.Length && !(out <= k < out + CHUNK) ==> mem[k] == old(mem[k])
  {
    forall k | out <= k < out + CHUNK {
      mem[k] := v[k - out];
    }
  }

  /** The vector holds what belongs at position `at` and behind it. */
  ghost predicate Holds(v: seq<Byte>, m0: seq<Byte>, b: nat, p: nat, at: nat) {
    |v| == CHUNK && p >= 1 && b + p <= |m0| && b <= at && forall i :: 0 <= i < CHUNK ==> v[i] == Cycle(m0, b, p, at + i)
  }

  /** Repeating the last `p` bytes gives what belongs behind them. */
  lemma DupHolds(m: seq<Byte>, m0: seq<Byte>, b: nat, p: nat, at: nat, v: seq<Byte>)
    requires Repeats(m, m0, b, p, b, at) && b + p <= at && |v| == CHUNK
    requires forall i :: 0 <= i < CHUNK ==> v[i] == m[at - p + i % p]
    ensures Holds(v, m0, b, p, at)
  {
    forall i | 0 <= i < CHUNK
      ensures v[i] == Cycle(m0, b, p, at + i)
    {
      DivMod(i, p);
      CycleShift(m0, b, p, at - p + i % p, i / p + 1);
      MulDistribute(i / p, 1, p);
    }
  }

  /** The vector is right again a chunk later, because a chunk is a whole number of periods. */
  lemma HoldsLater(v: seq<Byte>, m0: seq<Byte>, b: nat, p: nat, at: nat)
    requires Holds(v, m0, b, p, at) && p in {1, 2, 4, 8}
    ensures Holds(v, m0, b, p, at + CHUNK)
  {
    hide Cycle;
    var j := CHUNK / p;
    forall i | 0 <= i < CHUNK
      ensures v[i] == Cycle(m0, b, p, at + CHUNK + i)
    {
      CycleShift(m0, b, p, at + i, j);
    }
  }

  lemma StoreContinues(m: seq<Byte>, m': seq<Byte>, m0: seq<Byte>, b: nat, p: nat, at: nat, v: seq<Byte>)
    requires Repeats(m, m0, b, p, b, at) && Holds(v, m0, b, p, at) && at + CHUNK <= |m| == |m'|
    requires forall k :: 0 <= k < at ==> m'[k] == m[k]
    requires forall k :: at <= k < at + CHUNK ==> m'[k] == v[k - at]
    ensures Repeats(m', m0, b, p, b, at + CHUNK)
  {
    hide Cycle;
    forall k | b <= k < at + CHUNK
      ensures m'[k] == Cycle(m0, b, p, k)
    {
      if k >= at {
        assert v[k - at] == Cycle(m0, b, p, at + (k - at));
      }
    }
  }

  lemma RepeatsShorter(m: seq<Byte>, m0: seq<Byte>, b: nat, p: nat, at: nat, hi: nat)
    requires Repeats(m, m0, b, p, b, hi) && at <= hi
    ensures Repeats(m, m0, b, p, b, at)
  {
  }

  /** How many bytes come before the whole chunks. */
  function FirstBump(len: nat): (n: nat)
    requires len >= 1
    ensures 1 <= n <= CHUNK && n <= len && (len - n) % CHUNK == 0
  {
    (len - 1) % CHUNK + 1
  }

  /** Fills with a period of 1, 2, 4 or 8 bytes by storing a repeated vector. */
  method ChunksetPower(mem: array<Byte>, out: nat, period: nat, len: nat) returns (end: nat)
    requires period in {1, 2, 4, 8} && period <= out && len >= 1 && out + Max(CHUNK, len) <= mem.Length
    modifies mem
    ensures end == out + len
    ensures Repeats(mem[..], old(mem[..]), out - period, period, out - period, end)
    ensures forall k :: 0 <= k < mem.Length && !(out <= k < out + Max(CHUNK, len)) ==> mem[k] == old(mem[k])
  {
    hide Repeats, Holds, FirstBump;
    ghost var m0, b := mem[..], out - period;
    var bump := FirstBump(len);
    RepeatsStart(m0, b, period);
    var v := LoadDup(mem, out - period, period);
    DupHolds(m0, m0, b, period, out, v);
    StoreVector(mem, out, v);
    StoreContinues(m0, mem[..], m0, b, period, out, v);
    end := out + bump;
    RepeatsShorter(mem[..], m0, b, period, end, out + CHUNK);
    var left := len - bump;
    if left > 0 {
      ghost var m1 := mem[..];
      v := LoadDup(mem, end - period, period);
      DupHolds(m1, m0, b, period, end, v);
      end := StoreRest(mem, end, left, v, m0, b, period);
      OutsideBoth(m0, m1, mem[..], out, out + bump, len);
    }
  }

  lemma OutsideBoth(m0: seq<Byte>, m1: seq<Byte>, m2: seq<Byte>, out: nat, mid: nat, len: nat)
    requires |m0| == |m1| == |m2| && out <= mid <= out + len
    requires forall k :: 0 <= k < |m0| && !(out <= k < out + CHUNK) ==> m1[k] == m0[k]
    requires forall k :: 0 <= k < |m0| && !(mid <= k < out + len) ==> m2[k] == m1[k]
    ensures forall k :: 0 <= k < |m0| && !(out <= k < out + Max(CHUNK, len)) ==> m2[k] == m0[k]
  {
  }

  /** Stores the vector again and again; every time it is a whole number of periods further. */
  method StoreRest(mem: array<Byte>, out: nat, len: nat, v: seq<Byte>, ghost m0: seq<Byte>, ghost b: nat,
      ghost period: nat) returns (end: nat)
    requires period in {1, 2, 4, 8} && b + period <= out && len % CHUNK == 0 && |v| == CHUNK
              && out + len <= mem.Length == |m0|
    requires Repeats(mem[..], m0, b, period, b, out) && Holds(v, m0, b, period, out)
    modifies mem
    ensures end == out + len && Repeats(mem[..], m0, b, period, b, end)
    ensures forall k :: 0 <= k < mem.Length && !(out <= k < out + len) ==> mem[k] == old(mem[k])
  {
    hide Repeats, Holds;
    end := out;
    var left := len;
    while left > 0
      invariant left >= 0 && end + left == out + len && left % CHUNK == 0
      invariant Repeats(mem[..], m0, b, period, b, end) && Holds(v, m0, b, period, end)
      invariant forall k :: 0 <= k < mem.Length && !(out <= k < out + len) ==> mem[k] == old(mem[k])
    {
      ghost var m := mem[..];
      StoreVector(mem, end, v);
      StoreContinues(m, mem[..], m0, b, period, end, v);
      HoldsLater(v, m0, b, period, end);
      end := end + CHUNK;
      left := left - CHUNK;
    }
  }

  /** Fills with any period by doubling it first. */
  method ChunksetAny(mem: array<Byte>, out: nat, period: nat, len: nat) returns (end: nat)
    requires 1 <= period < CHUNK && period <= out && len >= 1 && out + Max(3 * CHUNK, len) <= mem.Length
    modifies mem
    ensures end == out + len
    ensures Repeats(mem[..], old(mem[..]), out - period, period, out - period, end)
    ensures forall k :: 0 <= k < mem.Length && !(out <= k < out + Max(3 * CHUNK, len)) ==> mem[k] == old(mem[k])
  {
    hide Cycle, Repeats, Multiple;
    ghost var m0, b := mem[..], out - period;
    var at, p, left := ChunkunrollRelaxed(mem, out, period, len);
    ghost var m1 := mem[..];
    end := ChunkcopyCore(mem, at, mem, at - p, left);
    ghost var m2 := mem[..];
    FillOn(m1, m2, m0, b, period, p, at, end);
    OutsideThree(m0, m1, m2, out, at, left, len);
  }

  /** Fills by repeating the last `period` bytes, which are fewer than a chunk. */
  method ChunksetCore(mem: array<Byte>, out: nat, period: nat, len: nat) returns (end: nat)
    requires 1 <= period < CHUNK && period <= out && len >= 1 && out + Max(3 * CHUNK, len) <= mem.Length
    modifies mem
    ensures end == out + len
    ensures Repeats(mem[..], old(mem[..]), out - period, period, out - period, end)
    ensures forall k :: 0 <= k < mem.Length && !(out <= k < out + Max(3 * CHUNK, len)) ==> mem[k] == old(mem[k])
  {
    hide Cycle, Repeats;
    if period in {1, 2, 4, 8} {
      end := ChunksetPower(mem, out, period, len);
    } else {
      end := ChunksetAny(mem, out, period, len);
    }
  }

  lemma OutsideThree(m0: seq<Byte>, m1: seq<Byte>, m2: seq<Byte>, out: nat, at: nat, left: nat, len: nat)
    requires |m0| == |m1| == |m2| && out <= at <= out + 2 * CHUNK && at + left == out + len
    requires forall k :: 0 <= k < |m0| && !(out <= k < out + 2 * CHUNK) ==> m1[k] == m0[k]
    requires forall k :: 0 <= k < |m0| && !(at <= k < at + Max(CHUNK, left)) ==> m2[k] == m1[k]
    ensures forall k :: 0 <= k < |m0| && !(out <= k < out + Max(3 * CHUNK, len)) ==> m2[k] == m0[k]
  {
  }

  lemma FillOn(m: seq<Byte>, m': seq<Byte>, m0: seq<Byte>, b: nat, d: nat, p: nat, at: nat, end: nat)
    requires Repeats(m, m0, b, d, b, at) && Multiple(p, d) && at == b + p && at <= end <= |m'| == |m|
    requires forall k :: 0 <= k < at ==> m'[k] == m[k]
    requires forall k :: at <= k < end ==> m'[k] == m'[k - at + (at - p)]
    ensures Repeats(m', m0, b, d, b, end)
  {
    var j: nat :| j >= 1 && j * d == p;
    RepeatsOn(m', m0, b, d, j, at, end);
  }

  // ---------- the overlapping copy ----------

  /** Every one of the `len` bytes at `out` is the byte `dist` before it, and nothing before `out` has changed. */
  ghost predicate Lapped(m: seq<Byte>, m0: seq<Byte>, out: nat, dist: nat, len: nat) {
    && |m| == |m0| && 1 <= dist <= out && out + len <= |m|
    && (forall k :: 0 <= k < out ==> m[k] == m0[k])
    && (forall k :: out <= k < out + len ==> m[k] == m[k - dist])
  }

  /** The copy of one byte after the other. */
  function ByteCopy(m: seq<Byte>, out: nat, dist: nat, len: nat): (r: seq<Byte>)
    requires 1 <= dist <= out && out + len <= |m|
    ensures |r| == |m|
  {
    if len == 0 then m
    else
      var r := ByteCopy(m, out, dist, len - 1);
      r[out + len - 1 := r[out + len - 1 - dist]]
  }

  lemma {:induction false} ByteCopyLaps(m: seq<Byte>, out: nat, dist: nat, len: nat)
    requires 1 <= dist <= out && out + len <= |m|
    ensures Lapped(ByteCopy(m, out, dist, len), m, out, dist, len)
  {
    if len > 0 {
      ByteCopyLaps(m, out, dist, len - 1);
    }
  }

  /** The property determines the bytes: any lapped copy is the copy byte by byte. */
  lemma {:induction false} LappedIsByteCopy(m: seq<Byte>, m0: seq<Byte>, out: nat, dist: nat, len: nat)
    requires Lapped(m, m0, out, dist, len)
    ensures m[..out + len] == ByteCopy(m0, out, dist, len)[..out + len]
  {
    ByteCopyLaps(m0, out, dist, len);
    if len > 0 {
      LappedIsByteCopy(m, m0, out, dist, len - 1);
      var r, r1 := ByteCopy(m0, out, dist, len), ByteCopy(m0, out, dist, len - 1);
      assert m[..out + len - 1] == r1[..out + len - 1];
      assert m[out + len - 1 - dist] == m[..out + len - 1][out + len - 1 - dist] == r1[out + len - 1 - dist];
      assert m[..out + len] == m[..out + len - 1] + [m[out + len - 1]];
      assert r[..out + len] == r1[..out + len - 1] + [r[out + len - 1]];
    }
  }

  lemma LappedWas(m: seq<Byte>, m0: seq<Byte>, out: nat, dist: nat, len: nat)
    requires Lapped(m, m0, out, dist, len)
    ensures |m| == |m0| && forall k :: 0 <= k < out ==> m[k] == m0[k]
    ensures forall k :: out <= k < out + len ==> m[k] == m[k - out + (out - dist)]
  {
  }

  lemma RepeatsIsLapped(m: seq<Byte>, m0: seq<Byte>, out: nat, dist: nat, len: nat)
    requires |m| == |m0| && 1 <= dist <= out && out + len <= |m|
              && Repeats(m, m0, out - dist, dist, out - dist, out + len)
    requires forall k :: 0 <= k < out ==> m[k] == m0[k]
    ensures Lapped(m, m0, out, dist, len)
  {
    hide Cycle;
    forall k | out <= k < out + len
      ensures m[k] == m[k - dist]
    {
      CycleShift(m0, out - dist, dist, k - dist, 1);
    }
  }

  /** The overlapping copy when there are three chunks of room behind `out`. */
  method ChunkcopyLappedRelaxed(mem: array<Byte>, out: nat, dist: nat, len: nat) returns (end: nat)
    requires 1 <= dist <= out && len >= 1 && out + Max(3 * CHUNK, len) <= mem.Length
    modifies mem
    ensures end == out + len && Lapped(mem[..], old(mem[..]), out, dist, len)
    ensures forall k :: out + Max(3 * CHUNK, len) <= k < mem.Length ==> mem[k] == old(mem[k])
  {
    hide Repeats;
    if dist < len && dist < CHUNK {
      ghost var m0 := mem[..];
      end := ChunksetCore(mem, out, dist, len);
      RepeatsIsLapped(mem[..], m0, out, dist, len);
    } else {
      end := ChunkcopyCore(mem, out, mem, out - dist, len);
    }
  }

  /** The rest of an overlapping copy; which form it takes is up to the compiler it is made for. */
  method ChunkcopySafeUgly(mem: array<Byte>, out: nat, dist: nat, len: nat, limit: nat) returns (end: nat)
    requires 1 <= dist <= out && len >= 1 && out + len <= limit <= mem.Length && (dist >= CHUNK || len <= dist)
    modifies mem
    ensures end == out + len && Lapped(mem[..], old(mem[..]), out, dist, len)
    ensures forall k :: limit <= k < mem.Length ==> mem[k] == old(mem[k])
  {
    if * {
      end := ChunkcopyCoreSafe(mem, out, mem, out - dist, len, limit);
    } else {
      end := ChunkcopyLappedSafe(mem, out, dist, len, limit);
    }
  }

  /** The overlapping copy behind a part from the window: short distances are doubled first, with room for that. */
  method ChunkcopyUnrolled(mem: array<Byte>, out: nat, dist: nat, len: nat, limit: nat) returns (end: nat)
    requires 1 <= dist <= out && len >= 1 && out + len <= limit <= mem.Length
    requires dist < CHUNK ==> out + 2 * CHUNK <= limit
    modifies mem
    ensures end == out + len && Lapped(mem[..], old(mem[..]), out, dist, len)
    ensures forall k :: limit <= k < mem.Length ==> mem[k] == old(mem[k])
  {
    hide Cycle, Repeats, Multiple, Lapped;
    ghost var m0, b := mem[..], out - dist;
    var at, d, left := ChunkunrollRelaxed(mem, out, dist, len);
    ghost var m1 := mem[..];
    end := ChunkcopySafeUgly(mem, at, d, left, limit);
    ghost var m2 := mem[..];
    LappedWas(m2, m1, at, d, left);
    FillOn(m1, m2, m0, b, dist, d, at, end);
    RepeatsIsLapped(m2, m0, out, dist, len);
  }

  /** The overlapping copy that never writes at or beyond `limit`. */
  method ChunkcopyLappedSafe(mem: array<Byte>, out: nat, dist: nat, len: nat, limit: nat) returns (end: nat)
    requires 1 <= dist <= out && len >= 1 && out + len <= limit <= mem.Length
    modifies mem
    ensures end == out + len && Lapped(mem[..], old(mem[..]), out, dist, len)
    ensures mem[..end] == ByteCopy(old(mem[..]), out, dist, len)[..end]
    ensures forall k :: limit <= k < mem.Length ==> mem[k] == old(mem[k])
  {
    ghost var m0 := mem[..];
    if limit - out < 3 * CHUNK {
      end := out;
      while end < out + len
        invariant out <= end <= out + len && Lapped(mem[..], m0, out, dist, end - out)
        invariant forall k :: limit <= k < mem.Length ==> mem[k] == m0[k]
      {
        mem[end] := mem[end - dist];
        end := end + 1;
      }
    } else {
      end := ChunkcopyLappedRelaxed(mem, out, dist, len);
    }
    LappedIsByteCopy(mem[..], m0, out, dist, len);
  }
}
