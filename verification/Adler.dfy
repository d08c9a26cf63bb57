/** The Adler-32 checksum: deferred reduction, sums by blocks, and combination (zlib's adler32.c and adler32_simd.c). */
module Adler {
  import opened Arithmetic

  const BASE: nat := 65521
  const NMAX: nat := 5552

  lemma NoSmallFactor(d: nat)
    requires 2 <= d <= 255
    ensures BASE % d != 0
  {
  }

  /** The modulus is a prime number. */
  lemma BaseIsPrime(d: nat)
    requires 2 <= d < BASE
    ensures BASE % d != 0
  {
    if BASE % d == 0 {
      var q := BASE / d;
      DivMod(BASE, d);
      if d <= 255 {
        NoSmallFactor(d);
      } else {
        if q >= 256 {
          MulMonotone(d, 256, q);
        }
        DivModUnique(BASE, q, d, 0);
        NoSmallFactor(q);
      }
    }
  }

  /** There is no larger prime number below 2^16. */
  lemma BaseIsLargest(n: nat) returns (d: nat)
    requires BASE < n < 0x1_0000
    ensures 2 <= d < n && n % d == 0
  {
    d := if n % 2 == 0 then 2 else if n % 3 == 0 then 3 else if n % 5 == 0 then 5 else if n % 7 == 0 then 7
         else if n % 13 == 0 then 13 else 19;
  }

  /** `NMAX` bytes are the most that can be added up in 32 bits before the sums are reduced. */
  lemma NmaxIsLargest()
    ensures 255 * NMAX * (NMAX + 1) / 2 + (NMAX + 1) * (BASE - 1) < 0x1_0000_0000
    ensures 255 * (NMAX + 1) * (NMAX + 2) / 2 + (NMAX + 2) * (BASE - 1) >= 0x1_0000_0000
  {
  }

  /** The two halves of a checksum. */
  datatype Pair = Pair(lo: nat, hi: nat) {
    predicate Reduced() {
      lo < BASE && hi < BASE
    }

    /** The checksum as one number. */
    function Value(): nat {
      hi * 0x1_0000 + lo
    }
  }

  function Unpack(adler: nat): Pair {
    Pair(adler % 0x1_0000, adler / 0x1_0000 % 0x1_0000)
  }

  /** The checksum byte by byte, reduced at every step (section 8.2 of RFC 1950). */
  function Update(p: Pair, data: seq<Byte>): Pair {
    if data == [] then p
    else
      var q := Update(p, data[..|data| - 1]);
      var lo := (q.lo + data[|data| - 1]) % BASE;
      Pair(lo, (q.hi + lo) % BASE)
  }

  // ---------- sums without reduction ----------

  function Total(data: seq<Byte>): nat {
    if data == [] then 0 else Total(data[..|data| - 1]) + data[|data| - 1]
  }

  /** Every byte times the number of bytes from it to the end. */
  function Weighted(data: seq<Byte>): nat {
    if data == [] then 0 else Weighted(data[..|data| - 1]) + Total(data)
  }

  /** The two sums with no reduction at all. */
  function Sums(p: Pair, data: seq<Byte>): Pair {
    MulPositive(|data|, p.lo);
    Pair(p.lo + Total(data), p.hi + |data| * p.lo + Weighted(data))
  }

  function Reduce(p: Pair): Pair {
    Pair(p.lo % BASE, p.hi % BASE)
  }

  lemma SumsOne(p: Pair, data: seq<Byte>, b: Byte)
    ensures Sums(p, data + [b]) == Pair(Sums(p, data).lo + b, Sums(p, data).hi + Sums(p, data).lo + b)
  {
    var d := data + [b];
    assert d[..|d| - 1] == data;
    MulDistribute(|data|, 1, p.lo);
  }

  lemma {:induction false} TotalAppend(a: seq<Byte>, b: seq<Byte>)
    ensures Total(a + b) == Total(a) + Total(b)
  {
    if b == [] {
      assert a + b == a;
    } else {
      assert (a + b)[..|a + b| - 1] == a + b[..|b| - 1];
      TotalAppend(a, b[..|b| - 1]);
    }
  }

  lemma {:induction false} WeightedAppend(a: seq<Byte>, b: seq<Byte>)
    ensures |b| * Total(a) >= 0 && Weighted(a + b) == Weighted(a) + |b| * Total(a) + Weighted(b)
  {
    MulPositive(|b|, Total(a));
    if b == [] {
      assert a + b == a;
    } else {
      var front := b[..|b| - 1];
      assert (a + b)[..|a + b| - 1] == a + front;
      WeightedAppend(a, front);
      TotalAppend(a, b);
      MulDistribute(|front|, 1, Total(a));
    }
  }

  /** Sums over a concatenation are taken one after the other. */
  lemma SumsAppend(p: Pair, a: seq<Byte>, b: seq<Byte>)
    ensures Sums(p, a + b) == Sums(Sums(p, a), b)
  {
    hide Total, Weighted;
    TotalAppend(a, b);
    WeightedAppend(a, b);
    MulPositive(|a|, p.lo);
    MulPositive(|b|, Total(a));
    MulDistribute(|a|, |b|, p.lo);
    Expand(|b|, p.lo, Total(a));
  }

  lemma Expand(n: nat, x: nat, y: nat)
    ensures n * (x + y) == n * x + n * y
  {
  }

  /** Reducing the starting values does not change the reduced sums. */
  lemma SumsOfReduced(p: Pair, data: seq<Byte>)
    ensures Reduce(Sums(Reduce(p), data)) == Reduce(Sums(p, data))
  {
    hide Total, Weighted;
    var n, k, j := |data|, p.lo / BASE, p.hi / BASE;
    DivMod(p.lo, BASE);
    DivMod(p.hi, BASE);
    ModOfSum(p.lo % BASE + Total(data), k, BASE);
    MulPositive(n, p.lo % BASE);
    MulPositive(n, k);
    ExpandMod(n, k, p.lo % BASE, p.lo);
    ModOfSum(p.hi % BASE + n * (p.lo % BASE) + Weighted(data), j + n * k, BASE);
  }

  lemma ExpandMod(n: nat, k: nat, r: nat, x: nat)
    requires x == k * BASE + r
    ensures n * x == n * r + (n * k) * BASE
  {
    Expand(n, k * BASE, r);
    MulAssoc(n, k, BASE);
  }

  /** Reduction at every step and reduction at the end agree. */
  lemma {:induction false} UpdateIsSums(p: Pair, data: seq<Byte>)
    requires p.Reduced()
    ensures Update(p, data) == Reduce(Sums(p, data))
  {
    hide Total, Weighted, Sums, Reduce;
    if data == [] {
      NoSums(p);
      ReducedStays(p);
    } else {
      var front, b := data[..|data| - 1], data[|data| - 1];
      UpdateIsSums(p, front);
      assert data == front + [b];
      SumsOne(p, front, b);
      ReduceOne(Sums(p, front), b);
    }
  }

  /** Both halves of a checksum as plain numbers: the sum of the bytes, and the sum weighted by what is behind each. */
  lemma PlainSums(adler: nat, data: seq<Byte>)
    requires Unpack(adler).Reduced()
    ensures var r := Update(Unpack(adler), data).Value();
      && r % 0x1_0000 == (adler % 0x1_0000 + Total(data)) % BASE
      && r / 0x1_0000 == (adler / 0x1_0000 % 0x1_0000 + |data| * (adler % 0x1_0000) + Weighted(data)) % BASE
  {
    hide Update, Total, Weighted;
    UpdateIsSums(Unpack(adler), data);
    var q := Update(Unpack(adler), data);
    DivModUnique(q.Value(), 0x1_0000, q.hi, q.lo);
  }

  /** Each byte counts as often as there are bytes from it to the end. */
  lemma {:induction false} FirstByte(b: Byte, data: seq<Byte>)
    ensures Total([b] + data) == b + Total(data)
    ensures b * (|data| + 1) >= 0 && Weighted([b] + data) == b * (|data| + 1) + Weighted(data)
  {
    var d := [b] + data;
    MulPositive(b, |data| + 1);
    if data == [] {
      assert d == [b] && d[..0] == [];
    } else {
      FirstByte(b, data[..|data| - 1]);
      assert d[..|d| - 1] == [b] + data[..|data| - 1];
      MulDistribute(|data|, 1, b);
    }
  }

  lemma ReducedStays(p: Pair)
    requires p.Reduced()
    ensures Reduce(p) == p
  {
  }

  /** One more byte on reduced sums. */
  lemma ReduceOne(s: Pair, b: nat)
    ensures var r, lo := Reduce(s), (Reduce(s).lo + b) % BASE;
      Reduce(Pair(s.lo + b, s.hi + s.lo + b)) == Pair(lo, (r.hi + lo) % BASE)
  {
    AddMod(s.lo, b);
    AddMod(s.hi, s.lo + b);
  }

  lemma AddMod(x: nat, y: nat)
    ensures (x % BASE + y) % BASE == (x + y) % BASE && (x % BASE + y % BASE) % BASE == (x + y) % BASE
  {
    DivMod(x, BASE);
    DivMod(y, BASE);
    ModOfSum(x % BASE + y, x / BASE, BASE);
    ModOfSum(x % BASE + y % BASE, x / BASE + y / BASE, BASE);
  }

  lemma NoSums(p: Pair)
    ensures Sums(p, []) == p
  {
  }

  // ---------- no overflow ----------

  lemma {:induction false} TotalBound(data: seq<Byte>)
    ensures Total(data) <= 255 * |data|
  {
    if data != [] {
      TotalBound(data[..|data| - 1]);
    }
  }

  lemma {:induction false} WeightedBound(data: seq<Byte>)
    ensures 2 * Weighted(data) <= 255 * (|data| * (|data| + 1))
  {
    if data != [] {
      var n := |data|;
      WeightedBound(data[..n - 1]);
      TotalBound(data);
      assert n * (n + 1) == (n - 1) * n + 2 * n;
    }
  }

  /** Up to NMAX bytes the sums fit 32 bits. */
  lemma SumsFit(p: Pair, data: seq<Byte>)
    requires p.Reduced() && |data| <= NMAX
    ensures Sums(p, data).lo < 0x1_0000_0000 && Sums(p, data).hi < 0x1_0000_0000
  {
    hide Total, Weighted;
    var n := |data|;
    TotalBound(data);
    WeightedBound(data);
    MulMonotone(n, p.lo, BASE - 1);
    MulMonotone(BASE - 1, n, NMAX);
    MulMonotone(n, n + 1, NMAX + 1);
    MulMonotone(NMAX + 1, n, NMAX);
  }

  // ---------- the scalar form ----------

  /** Adds up bytes without reduction. */
  method AddBytes(p: Pair, buf: array<Byte>, from: nat, n: nat) returns (q: Pair)
    requires p.Reduced() && from + n <= buf.Length && n <= NMAX
    ensures q == Sums(p, buf[from..from + n])
  {
    hide Sums, Total, Weighted;
    q := p;
    var i := 0;
    assert buf[from..from] == [];
    NoSums(p);
    while i < n
      invariant 0 <= i <= n && q == Sums(p, buf[from..from + i])
    {
      SumsOne(p, buf[from..from + i], buf[from + i]);
      assert buf[from..from + i + 1] == buf[from..from + i] + [buf[from + i]];
      SumsFit(p, buf[from..from + i + 1]);
      var lo := (q.lo + buf[from + i]) % 0x1_0000_0000;
      q := Pair(lo, (q.hi + lo) % 0x1_0000_0000);
      i := i + 1;
    }
  }

  lemma Concat(buf: seq<Byte>, i: nat, n: nat)
    requires i + n <= |buf|
    ensures buf[..i + n] == buf[..i] + buf[i..i + n]
  {
  }

  /** Summing up one more stretch and then reducing. */
  lemma NextStretch(p: Pair, buf: seq<Byte>, i: nat, n: nat)
    requires p.Reduced() && i + n <= |buf|
    ensures Reduce(Sums(Update(p, buf[..i]), buf[i..i + n])) == Update(p, buf[..i + n])
    ensures Update(p, buf[..i]).Reduced()
  {
    hide Sums;
    UpdateIsSums(p, buf[..i]);
    UpdateIsSums(p, buf[..i + n]);
    Concat(buf, i, n);
    SumsAppend(p, buf[..i], buf[i..i + n]);
    SumsOfReduced(Sums(p, buf[..i]), buf[i..i + n]);
  }

  /** The checksum with one reduction for every NMAX bytes. */
  method Adler32(adler: nat, buf: array<Byte>) returns (r: nat)
    requires Unpack(adler).Reduced()
    ensures r == Update(Unpack(adler), buf[..]).Value()
  {
    hide Sums, Update, Unpack;
    var p, len := Unpack(adler), buf.Length;
    ghost var data := buf[..];
    assert data[..0] == [] && data[..len] == data;
    NoUpdate(p);
    if len == 1 {
      NextStretch(p, data, 0, 1);
      assert data[0..1] == [] + [buf[0]];
      SumsOne(p, [], buf[0]);
      NoSums(p);
      var lo := p.lo + buf[0];
      if lo >= BASE {
        lo := lo - BASE;
      }
      var hi := p.hi + lo;
      if hi >= BASE {
        hi := hi - BASE;
      }
      SmallMod(p.lo + buf[0]);
      SmallMod(p.hi + lo);
      assert (p.hi + p.lo + buf[0]) % BASE == (p.hi + lo) % BASE;
      return Pair(lo, hi).Value();
    }
    if len < 16 {
      var q := AddBytes(p, buf, 0, len);
      NextStretch(p, data, 0, len);
      LowFits(p, buf[0..len]);
      SmallMod(q.lo);
      return Pair(if q.lo >= BASE then q.lo - BASE else q.lo, q.hi % BASE).Value();
    }
    var q, i := p, 0;
    while len - i >= NMAX
      invariant 0 <= i <= len && q == Update(p, data[..i])
    {
      NextStretch(p, data, i, NMAX);
      q := AddBytes(q, buf, i, NMAX);
      q := Reduce(q);
      i := i + NMAX;
    }
    if i < len {
      NextStretch(p, data, i, len - i);
      q := AddBytes(q, buf, i, len - i);
      q := Reduce(q);
    }
    r := q.Value();
  }

  lemma NoUpdate(p: Pair)
    ensures Update(p, []) == p
  {
  }

  lemma SmallMod(x: nat)
    requires x < 2 * BASE
    ensures x % BASE == if x >= BASE then x - BASE else x
  {
  }

  lemma LowFits(p: Pair, data: seq<Byte>)
    requires p.Reduced() && |data| < 16
    ensures Sums(p, data).lo < 2 * BASE
  {
    TotalBound(data);
  }

  // ---------- the blocked form ----------

  const BLOCK_SIZE: nat := 32

  /** The bytes of a block and the bytes times 32, 31, ..., 1, as the vector lanes add them up. */
  method BlockSums(buf: array<Byte>, at: nat) returns (total: nat, weighted: nat)
    requires at + BLOCK_SIZE <= buf.Length
    ensures total == Total(buf[at..at + BLOCK_SIZE]) && weighted == Weighted(buf[at..at + BLOCK_SIZE])
  {
    hide Total, Weighted;
    total, weighted := 0, 0;
    var i := 0;
    assert buf[at..at] == [];
    EmptyTotals();
    ghost var left := BLOCK_SIZE;
    while i < BLOCK_SIZE
      invariant 0 <= i <= BLOCK_SIZE && total == Total(buf[at..at + i])
      invariant weighted == Weighted(buf[at..at + i]) + (BLOCK_SIZE - i) * Total(buf[at..at + i])
    {
      assert buf[at..at + i + 1] == buf[at..at + i] + [buf[at + i]];
      OneMore(buf[at..at + i], buf[at + i]);
      Tap(weighted, BLOCK_SIZE - i, Total(buf[at..at + i]), Weighted(buf[at..at + i]), buf[at + i]);
      weighted := weighted + buf[at + i] * (BLOCK_SIZE - i);
      total := total + buf[at + i];
      i := i + 1;
    }
  }

  lemma EmptyTotals()
    ensures Total([]) == 0 == Weighted([])
  {
  }

  lemma OneMore(data: seq<Byte>, b: Byte)
    ensures Total(data + [b]) == Total(data) + b && Weighted(data + [b]) == Weighted(data) + Total(data) + b
  {
    assert (data + [b])[..|data|] == data;
  }

  lemma Tap(sum: nat, k: nat, t: nat, w: nat, b: nat)
    requires sum == w + k * t && k >= 1
    ensures sum + b * k == (w + t + b) + (k - 1) * (t + b)
  {
  }

  /**
    The checksum in blocks of 32 bytes, at most 173 blocks between two reductions. The vectors are modelled
    by the sums of their lanes: `vps` collects the byte sums of the blocks before each block.
   */
  method Adler32Simd(adler: nat, buf: array<Byte>) returns (r: nat)
    requires Unpack(adler).Reduced()
    ensures r == Update(Unpack(adler), buf[..]).Value()
  {
    hide Sums, Update, Unpack;
    var p, len := Unpack(adler), buf.Length;
    ghost var data := buf[..];
    assert data[..0] == [] && data[..len] == data;
    NoUpdate(p);
    var blocks, i, q := len / BLOCK_SIZE, 0, p;
    while blocks > 0
      invariant 0 <= blocks && i + BLOCK_SIZE * blocks + len % BLOCK_SIZE == len && 0 <= i
      invariant q == Update(p, data[..i])
      decreases blocks
    {
      var n := Min(NMAX / BLOCK_SIZE, blocks);
      blocks := blocks - n;
      NextStretch(p, data, i, BLOCK_SIZE * n);
      q := SimdBlocks(q, buf, i, n);
      q := Reduce(q);
      i := i + BLOCK_SIZE * n;
    }
    if i < len {
      NextStretch(p, data, i, len - i);
      q := AddBytes(q, buf, i, len - i);
      SmallRest(Update(p, data[..i]), buf[i..len]);
      SmallMod(q.lo);
      q := Pair(if q.lo >= BASE then q.lo - BASE else q.lo, q.hi % BASE);
    }
    r := q.Value();
  }

  lemma SmallRest(p: Pair, data: seq<Byte>)
    requires p.Reduced() && |data| < BLOCK_SIZE
    ensures Sums(p, data).lo < 2 * BASE
  {
    TotalBound(data);
  }

  /** The inner loop over `n` blocks. */
  method SimdBlocks(p: Pair, buf: array<Byte>, at: nat, n: nat) returns (q: Pair)
    requires p.Reduced() && 1 <= n <= NMAX / BLOCK_SIZE && at + BLOCK_SIZE * n <= buf.Length
    ensures q == Sums(p, buf[at..at + BLOCK_SIZE * n])
  {
    hide Sums, Total, Weighted;
    var vps, vs2, vs1, k := p.lo * n, p.hi, 0, 0;
    assert buf[at..at] == [];
    NoSums(p);
    while k < n
      invariant 0 <= k <= n && vps >= p.lo * n >= 0 && vs1 >= 0 && vs2 >= 0 && p.lo * k >= 0
      invariant Sums(p, buf[at..at + BLOCK_SIZE * k]) == Pair(p.lo + vs1,
                vs2 + BLOCK_SIZE * (vps - p.lo * n + p.lo * k))
    {
      var d, e := buf[at..at + BLOCK_SIZE * k], buf[at + BLOCK_SIZE * k..at + BLOCK_SIZE * k + BLOCK_SIZE];
      assert buf[at..at + BLOCK_SIZE * (k + 1)] == d + e;
      SumsAppend(p, d, e);
      SumsBlock(Sums(p, d), e);
      vps := vps + vs1;
      var total, weighted := BlockSums(buf, at + BLOCK_SIZE * k);
      vs1 := vs1 + total;
      vs2 := vs2 + weighted;
      k := k + 1;
      assert p.lo * k == p.lo * (k - 1) + p.lo;
    }
    vs2 := vs2 + BLOCK_SIZE * vps;
    SumsFit(p, buf[at..at + BLOCK_SIZE * n]);
    q := Pair((p.lo + vs1) % 0x1_0000_0000, vs2 % 0x1_0000_0000);
  }

  lemma SumsBlock(p: Pair, e: seq<Byte>)
    requires |e| == BLOCK_SIZE
    ensures Sums(p, e) == Pair(p.lo + Total(e), p.hi + BLOCK_SIZE * p.lo + Weighted(e))
  {
  }

  /** The vector form and the scalar form agree. */
  method BothForms(adler: nat, buf: array<Byte>) returns (a: nat, b: nat)
    requires Unpack(adler).Reduced()
    ensures a == b
  {
    a := Adler32(adler, buf);
    b := Adler32Simd(adler, buf);
  }

  // ---------- combining two checksums ----------

  /** The checksum of `data` from the start value 1. */
  function Checksum(data: seq<Byte>): Pair {
    Update(Pair(1, 0), data)
  }

  /** What the combination computes, modulo BASE. */
  function Combined(p: Pair, q: Pair, n: nat): (int, int) {
    ((p.lo + q.lo - 1) % BASE, (p.hi + q.hi + (n % BASE) * p.lo - n % BASE) % BASE)
  }

  /** The checksum of a concatenation from the checksums of its parts and the length of the second one. */
  lemma ConcatenatedChecksum(a: seq<Byte>, b: seq<Byte>)
    ensures (Checksum(a + b).lo, Checksum(a + b).hi) == Combined(Checksum(a), Checksum(b), |b|)
  {
    hide Total, Weighted, Update;
    var start, n, r := Pair(1, 0), |b|, |b| % BASE;
    var s, t := Sums(start, a), Sums(start, b);
    UpdateIsSums(start, a);
    UpdateIsSums(start, b);
    UpdateIsSums(start, a + b);
    SumsAppend(start, a, b);
    SumsOfReduced(s, b);
    var p := Reduce(s);
    MulPositive(n, p.lo);
    MulPositive(r, p.lo);
    CombineMod(p.lo, Total(b));
    MulMod(n, r, p.lo);
    CombineHigh(p.hi, n, p.lo, Weighted(b), r);
  }

  lemma CombineMod(x: nat, t: nat)
    ensures (x + t) % BASE == (x + (1 + t) % BASE - 1) % BASE
  {
  }

  lemma MulMod(n: nat, r: nat, x: nat)
    requires r == n % BASE
    ensures n * x == r * x + (n / BASE * x) * BASE && n / BASE * x >= 0
  {
    DivMod(n, BASE);
    MulPositive(n / BASE, x);
    MulAssoc(n / BASE, BASE, x);
    MulDistribute(n / BASE * BASE, r, x);
    MulAssoc(n / BASE, x, BASE);
  }

  lemma CombineHigh(h: nat, n: nat, x: nat, w: nat, r: nat)
    requires r == n % BASE && n * x == r * x + (n / BASE * x) * BASE && n / BASE * x >= 0 && n * x >= 0
    ensures (h + n * x + w) % BASE == (h + (0 + n * 1 + w) % BASE + r * x - r) % BASE
  {
    var k, j := n / BASE * x, n / BASE;
    DivMod(n, BASE);
    ModOfSum(h + r * x + w, k, BASE);
    DivMod(n + w, BASE);
    var m := (n + w) / BASE;
    assert (n + w) % BASE == n + w - m * BASE;
    ModOfSum(h + r * x + w, j - m, BASE);
    assert h + (n + w) % BASE + r * x - r == h + r * x + w + (j - m) * BASE;
  }

  /** Combines two checksums; for a negative length the result is no checksum. */
  method Adler32Combine(adler1: nat, adler2: nat, len2: int) returns (r: nat)
    requires Unpack(adler1).Reduced() && Unpack(adler2).Reduced()
    ensures len2 < 0 ==> r == 0xFFFF_FFFF
    ensures len2 >= 0 ==>
              var (lo, hi) := Combined(Unpack(adler1), Unpack(adler2), len2);
              lo >= 0 && hi >= 0 && r == Pair(lo, hi).Value()
    ensures forall a: seq<Byte>, b: seq<Byte> ::
              Unpack(adler1) == Checksum(a) && Unpack(adler2) == Checksum(b) && len2 == |b| ==>
                  r == Checksum(a + b).Value()
  {
    hide Unpack, Checksum;
    if len2 < 0 {
      return 0xFFFF_FFFF;
    }
    var p, q, rem := Unpack(adler1), Unpack(adler2), len2 % BASE;
    MulPositive(rem, p.lo);
    var sum1, sum2 := p.lo, rem * p.lo % BASE;
    sum1 := sum1 + q.lo + BASE - 1;
    sum2 := sum2 + p.hi + q.hi + BASE - rem;
    ReduceLow(p.lo, q.lo, sum1);
    ReduceHigh(p.hi, q.hi, rem, rem * p.lo, sum2);
    if sum1 >= BASE {
      sum1 := sum1 - BASE;
    }
    if sum1 >= BASE {
      sum1 := sum1 - BASE;
    }
    if sum2 >= 2 * BASE {
      sum2 := sum2 - 2 * BASE;
    }
    if sum2 >= BASE {
      sum2 := sum2 - BASE;
    }
    r := Pair(sum1, sum2).Value();
    forall a: seq<Byte>, b: seq<Byte> | p == Checksum(a) && q == Checksum(b) && len2 == |b|
      ensures r == Checksum(a + b).Value()
    {
      ConcatenatedChecksum(a, b);
    }
  }

  lemma ReduceLow(x: nat, y: nat, s: int)
    requires x < BASE && y < BASE && s == x + y + BASE - 1
    ensures (x + y - 1) % BASE == if s >= 2 * BASE then s - 2 * BASE else if s >= BASE then s - BASE else s
  {
  }

  lemma ReduceHigh(x: nat, y: nat, rem: nat, m: nat, s: int)
    requires x < BASE && y < BASE && rem < BASE && s == m % BASE + x + y + BASE - rem
    ensures (x + y + m - rem) % BASE ==
            if s >= 3 * BASE then s - 3 * BASE else if s >= 2 * BASE then s - 2 * BASE else if s >= BASE then s - BASE
                else s
  {
    DivMod(m, BASE);
    ModOfSum(x + y + m % BASE - rem, m / BASE, BASE);
  }
}
