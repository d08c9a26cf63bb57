/**
  Reading the input of fast decoding 64 bits at a time (INFLATE_CHUNK_READ_64LE in zlib's chunkcopy.h and
  inffast_chunk.c).
 */
module WideInput {
  import opened Arithmetic
  import opened BitReader
  import opened Bits
  import opened CodeLookup
  import opened DecodingTable
  import opened HuffmanCode
  import opened InflateFast
  import opened Inflater
  import opened Inflation
  import WordCompare

  const MIN_WIDE_INPUT: nat := 8

  // ---------- words and bits ----------

  /** Inclusive or of the low `n` bits. */
  function Or(a: nat, b: nat, n: nat): nat {
    if n == 0 then 0 else Max(a % 2, b % 2) + 2 * Or(a / 2, b / 2, n - 1)
  }

  function Either(a: seq<bool>, b: seq<bool>): (r: seq<bool>)
    requires |a| == |b|
    ensures |r| == |a| && forall i :: 0 <= i < |r| ==> r[i] == (a[i] || b[i])
  {
    seq(|a|, i requires 0 <= i < |a| => a[i] || b[i])
  }

  lemma {:induction false} OrBits(a: seq<bool>, b: seq<bool>)
    requires |a| == |b|
    ensures Or(FromBits(a), FromBits(b), |a|) == FromBits(Either(a, b))
  {
    hide Pow2;
    if a != [] {
      OrBits(a[1..], b[1..]);
      assert Either(a, b)[1..] == Either(a[1..], b[1..]);
      OrStep(if a[0] then 1 else 0, if b[0] then 1 else 0, FromBits(a[1..]), FromBits(b[1..]), |a| - 1);
    }
  }

  lemma OrStep(x: nat, y: nat, a: nat, b: nat, n: nat)
    requires x < 2 && y < 2
    ensures Or(x + 2 * a, y + 2 * b, n + 1) == Max(x, y) + 2 * Or(a, b, n)
  {
    assert (x + 2 * a) / 2 == a && (y + 2 * b) / 2 == b;
    assert (x + 2 * a) % 2 == x && (y + 2 * b) % 2 == y;
  }

  function Zeros(n: nat): (r: seq<bool>)
    ensures |r| == n
  {
    seq(n, _ => false)
  }

  lemma {:induction false} NoBits(n: nat)
    ensures FromBits(Zeros(n)) == 0
  {
    if n > 0 {
      NoBits(n - 1);
      assert Zeros(n)[1..] == Zeros(n - 1);
    }
  }

  lemma ZerosBehind(p: seq<bool>, n: nat)
    ensures FromBits(p + Zeros(n)) == FromBits(p)
  {
    hide FromBits, Pow2;
    NoBits(n);
    FromBitsAppend(p, Zeros(n));
  }

  lemma ZerosBefore(n: nat, s: seq<bool>)
    ensures FromBits(Zeros(n) + s) == FromBits(s) * Pow2(n)
  {
    hide FromBits, Pow2;
    NoBits(n);
    FromBitsAppend(Zeros(n), s);
  }

  /** A word of bytes, the first lowest, has their bits in order. */
  lemma {:induction false} WordBits(b: seq<Byte>)
    ensures WordCompare.WordOf(b) == FromBits(BytesToBits(b))
  {
    if b != [] {
      hide FromBits, ToBits, BytesToBits;
      WordBits(b[1..]);
      BytesToBitsJoin([b[0]], b[1..]);
      assert b == [b[0]] + b[1..];
      OneByte(b[0]);
      FromBitsAppend(ToBits(b[0], 8), BytesToBits(b[1..]));
      ByteBits(b[0]);
      assert Pow2(8) == 256;
    } else {
      assert BytesToBits(b) == [];
    }
  }

  lemma OneByte(b: Byte)
    ensures BytesToBits([b]) == ToBits(b, 8)
  {
    assert BytesToBits([]) == [];
    BytesToBitsAppend([], b);
    assert [] + [b] == [b];
  }

  /** The bits that were there, with zeros up to the word's length. */
  function Widened(q: seq<bool>, n: nat): (r: seq<bool>)
    requires |q| <= n
    ensures |r| == n
  {
    q + Zeros(n - |q|)
  }

  /** The word shifted to the left by `k` and cut to its length. */
  function Shifted(s: seq<bool>, k: nat): (r: seq<bool>)
    ensures |r| == |s|
  {
    (Zeros(k) + s)[..|s|]
  }

  /** The bits of `p` and as many of `s` as fit. */
  function Joined(p: seq<bool>, s: seq<bool>): (r: seq<bool>)
    requires |p| <= |s|
    ensures |r| == |s|
  {
    p + s[..|s| - |p|]
  }

  lemma EitherIs(p: seq<bool>, e: seq<bool>, s: seq<bool>)
    requires e <= s && |p + e| <= |s|
    ensures Either(Widened(p + e, |s|), Shifted(s, |p|)) == Joined(p, s)
  {
    var a, b := Widened(p + e, |s|), Shifted(s, |p|);
    forall i | 0 <= i < |s|
      ensures (a[i] || b[i]) == Joined(p, s)[i]
    {
      if i < |p| {
        assert b[i] == Zeros(|p|)[i];
      } else {
        assert b[i] == s[i - |p|];
        assert i - |p| < |e| ==> a[i] == e[i - |p|] == s[i - |p|];
        assert i - |p| >= |e| ==> a[i] == Zeros(|s| - |p + e|)[i - |p + e|];
      }
    }
  }

  lemma WidenedWord(q: seq<bool>, n: nat)
    requires |q| <= n
    ensures FromBits(Widened(q, n)) == FromBits(q)
  {
    ZerosBehind(q, n - |q|);
  }

  lemma ShiftedWord(k: nat, s: seq<bool>)
    ensures FromBits(Shifted(s, k)) == FromBits(s) * Pow2(k) % Pow2(|s|)
  {
    hide FromBits, Pow2, Zeros;
    ZerosBefore(k, s);
    FromBitsPrefix(Zeros(k) + s, |s|);
  }

  /** Bits that are stored a second time are the same ones, so inclusive or completes the word. */
  lemma LoadBits(p: seq<bool>, e: seq<bool>, s: seq<bool>)
    requires e <= s && |p + e| <= |s|
    ensures Or(FromBits(p + e), FromBits(s) * Pow2(|p|) % Pow2(|s|), |s|) == FromBits(Joined(p, s))
  {
    hide FromBits, Pow2, Or, Either, Zeros, Widened, Shifted, Joined;
    WidenedWord(p + e, |s|);
    ShiftedWord(|p|, s);
    EitherIs(p, e, s);
    OrBits(Widened(p + e, |s|), Shifted(s, |p|));
  }

  // ---------- the bit buffer ----------

  /** The first bits of the input from `inp` on. */
  function Upcoming(src: seq<Byte>, inp: nat, k: nat): (r: seq<bool>)
    requires inp <= |src| && k <= 8 * (|src| - inp)
    ensures |r| == k
  {
    BytesToBits(src[inp..])[..k]
  }

  /** Above its counted bits the buffer may already hold bits of the input that follows. */
  ghost predicate Excess(src: seq<Byte>, r: Regs, p: seq<bool>) {
    r.inp <= |src| && exists k: nat ::
        k <= 8 * (|src| - r.inp) && |p| + k <= 64 && r.hold == FromBits(p + Upcoming(src, r.inp, k))
  }

  /** From the configuration at entry the bits that are counted as read have led to `c`. */
  ghost predicate Wide(src: seq<Byte>, entry: Config, r: Regs, c: Config) {
    At(src, entry, Regs(r.inp, FromBits(c.p), r.bits), c) && Excess(src, r, c.p)
  }

  lemma WideStart(src: seq<Byte>, entry: Config, r: Regs, c: Config)
    requires At(src, entry, r, c) && r.bits <= 64
    ensures Wide(src, entry, r, c)
  {
    hide Leads, FromBits, BytesToBits, State.Valid;
    assert Upcoming(src, r.inp, 0) == [];
    assert c.p + Upcoming(src, r.inp, 0) == c.p;
  }

  lemma WideValid(src: seq<Byte>, entry: Config, r: Regs, c: Config)
    requires Wide(src, entry, r, c)
    ensures c.s.Valid() && r.bits == |c.p| <= 64 && r.inp <= |src|
    ensures At(src, entry, Regs(r.inp, FromBits(c.p), r.bits), c)
  {
    hide FromBits, State.Valid;
  }

  /** The low bits are those that were read. */
  lemma WideLow(src: seq<Byte>, r: Regs, p: seq<bool>, n: nat)
    requires Excess(src, r, p) && n <= |p|
    ensures r.hold % Pow2(n) == FromBits(p[..n])
  {
    hide FromBits, Upcoming, Pow2;
    var k: nat :| k <= 8 * (|src| - r.inp) && |p| + k <= 64 && r.hold == FromBits(p + Upcoming(src, r.inp, k));
    var q := p + Upcoming(src, r.inp, k);
    FromBitsPrefix(q, n);
    assert q[..n] == p[..n];
  }

  lemma DropExcess(src: seq<Byte>, r: Regs, p: seq<bool>, n: nat)
    requires Excess(src, r, p) && r.bits == |p| && n <= |p|
    ensures Excess(src, Dropped(r, n), p[n..])
  {
    hide FromBits, Upcoming, Pow2;
    var k: nat :| k <= 8 * (|src| - r.inp) && |p| + k <= 64 && r.hold == FromBits(p + Upcoming(src, r.inp, k));
    var q := p + Upcoming(src, r.inp, k);
    FromBitsPrefix(q, n);
    assert q[n..] == p[n..] + Upcoming(src, r.inp, k);
  }

  /** A step that uses the low bits. */
  lemma WideStep(src: seq<Byte>, entry: Config, r: Regs, c: Config)
    requires Wide(src, entry, r, c) && InBlock(c.s.mode) && Step(c.s, c.p).Next?
    ensures Step(c.s, c.p).used <= r.bits
    ensures Wide(src, entry, Dropped(r, Step(c.s, c.p).used),
              Config(Step(c.s, c.p).state, c.p[Step(c.s, c.p).used..]))
  {
    hide At, Excess, FromBits, Step, Pow2, State.Valid;
    WideValid(src, entry, r, c);
    var narrow, used := Regs(r.inp, FromBits(c.p), r.bits), Step(c.s, c.p).used;
    StepKeeps(c.s, c.p);
    AtStep(src, entry, narrow, c);
    var c' := Config(Step(c.s, c.p).state, c.p[used..]);
    AtValid(src, entry, Dropped(narrow, used), c');
    DropExcess(src, r, c.p, used);
  }

  /** The first eight bytes from `inp` on, as bits, and what follows the first six. */
  lemma UpcomingWord(src: seq<Byte>, inp: nat, k: nat)
    requires inp + 8 <= |src| && k <= 64
    ensures var s := BytesToBits(src[inp..inp + 8]);
            && |s| == 64 && Upcoming(src, inp, k) == s[..k] && s[..48] == BytesToBits(src[inp..inp + 6])
            && (k >= 48 ==> s[..k] == s[..48] + Upcoming(src, inp + 6, k - 48))
  {
    hide BytesToBits;
    var rest, s := src[inp..], BytesToBits(src[inp..inp + 8]);
    assert rest == src[inp..inp + 8] + src[inp + 8..];
    BytesToBitsJoin(src[inp..inp + 8], src[inp + 8..]);
    assert rest == src[inp..inp + 6] + src[inp + 6..];
    BytesToBitsJoin(src[inp..inp + 6], src[inp + 6..]);
    assert src[inp..inp + 8] == src[inp..inp + 6] + src[inp + 6..inp + 8];
    BytesToBitsJoin(src[inp..inp + 6], src[inp + 6..inp + 8]);
  }

  /** The bits in the buffer after a load. */
  lemma LoadedBits(src: seq<Byte>, inp: nat, p: seq<bool>)
    requires inp + 8 <= |src| && |p| < 15
    ensures p + BytesToBits(src[inp..inp + 8])[..64 - |p|]
            == p + BytesToBits(src[inp..inp + 6]) + Upcoming(src, inp + 6, 16 - |p|)
  {
    hide BytesToBits, Upcoming;
    UpcomingWord(src, inp, 64 - |p|);
    var six := BytesToBits(src[inp..inp + 6]);
    assert p + (six + Upcoming(src, inp + 6, 16 - |p|)) == p + six + Upcoming(src, inp + 6, 16 - |p|);
  }

  lemma LoadExcess(src: seq<Byte>, r: Regs, p: seq<bool>, hold: nat)
    requires Excess(src, r, p) && r.bits == |p| < 15 && r.inp + 8 <= |src|
    requires hold == Or(r.hold, WordCompare.WordOf(src[r.inp..r.inp + 8]) * Pow2(r.bits) % Pow2(64), 64)
    ensures Excess(src, Regs(r.inp + 6, hold, r.bits + 48), p + BytesToBits(src[r.inp..r.inp + 6]))
  {
    hide FromBits, Upcoming, Pow2, Or, BytesToBits, WordCompare.WordOf;
    var k: nat :| k <= 8 * (|src| - r.inp) && |p| + k <= 64 && r.hold == FromBits(p + Upcoming(src, r.inp, k));
    var s, word := BytesToBits(src[r.inp..r.inp + 8]), src[r.inp..r.inp + 8];
    WordBits(word);
    UpcomingWord(src, r.inp, k);
    LoadBits(p, s[..k], s);
    LoadedBits(src, r.inp, p);
  }

  lemma LoadAt(src: seq<Byte>, entry: Config, r: Regs, c: Config)
    requires At(src, entry, r, c) && r.inp + 6 <= |src|
    ensures var p := c.p + BytesToBits(src[r.inp..r.inp + 6]);
            At(src, entry, Regs(r.inp + 6, FromBits(p), r.bits + 48), Config(c.s, p))
  {
    hide Leads, FromBits, BytesToBits, State.Valid;
    var q := BytesToBits(src[r.inp..r.inp + 6]);
    LeadsMore(Config(entry.s, entry.p + BytesToBits(src[..r.inp])), c, q);
    assert src[..r.inp + 6] == src[..r.inp] + src[r.inp..r.inp + 6];
    BytesToBitsJoin(src[..r.inp], src[r.inp..r.inp + 6]);
    assert entry.p + BytesToBits(src[..r.inp]) + q == entry.p + BytesToBits(src[..r.inp + 6]);
  }

  /** Loads eight bytes, and counts six of them as read. */
  method Load(src: seq<Byte>, r: Regs, ghost entry: Config, ghost c: Config) returns (r': Regs, ghost c': Config)
    requires Wide(src, entry, r, c) && r.bits < 15 && r.inp + 8 <= |src|
    ensures Wide(src, entry, r', c') && r'.inp == r.inp + 6 && r'.bits == r.bits + 48 && c'.s == c.s && c.p <= c'.p
  {
    hide At, Excess, FromBits, Pow2, Or, BytesToBits, WordCompare.WordOf, State.Valid;
    WideValid(src, entry, r, c);
    r' := Regs(r.inp + 6, Or(r.hold, WordCompare.WordOf(src[r.inp..r.inp + 8]) * Pow2(r.bits) % Pow2(64), 64),
      r.bits + 48);
    c' := Config(c.s, c.p + BytesToBits(src[r.inp..r.inp + 6]));
    LoadAt(src, entry, Regs(r.inp, FromBits(c.p), r.bits), c);
    LoadExcess(src, r, c.p, r'.hold);
  }

  /** Nothing was loaded for the present symbol, or one word, and then `need` bits are still there. */
  ghost predicate Supply(src: seq<Byte>, r: Regs, inp0: nat, need: nat) {
    inp0 + 8 <= |src| && r.bits < 63 && (r.inp == inp0 || (r.inp == inp0 + 6 && r.bits >= need))
  }

  /** Makes `n` bits ready; one load is always enough for a whole symbol. */
  method MakeReady(src: seq<Byte>, r: Regs, n: nat, ghost inp0: nat, ghost need: nat, ghost entry: Config,
      ghost c: Config)
    returns (r': Regs, ghost c': Config)
    requires Wide(src, entry, r, c) && Supply(src, r, inp0, need) && n <= 15 && n <= need <= 48
    ensures Wide(src, entry, r', c') && Supply(src, r', inp0, need) && r'.bits >= n && c'.s == c.s && c.p <= c'.p
    ensures r'.inp >= r.inp && r'.bits == r.bits + 8 * (r'.inp - r.inp)
  {
    hide Wide;
    r', c' := r, c;
    if r.bits < n {
      r', c' := Load(src, r, entry, c);
    }
  }

  // ---------- codes and extra bits ----------

  /** Looks a code up; bits beyond those that were counted do not matter. */
  method WideCode(src: seq<Byte>, d: Decoder, t: CodeType, r: Regs, ghost lens: seq<nat>, ghost p: seq<bool>)
    returns (r': Regs, here: Code, ghost n: nat)
    requires Built(d, t, lens) && r.bits == |p| >= MAXBITS && Excess(src, r, p)
    ensures |lens| <= MaxSymbols(t) && 1 <= n <= MAXBITS && r' == Dropped(r, n)
              && Decode(t, lens, p) == Decoded(here.op, here.val, n)
  {
    hide FromBits, Pow2, Decode, Built, Upcoming;
    ghost var k: nat :| k <= 8 * (|src| - r.inp) && |p| + k <= 64 && r.hold == FromBits(p + Upcoming(src, r.inp, k));
    ghost var e := Upcoming(src, r.inp, k);
    r', here, n := FastCode(d, t, r, lens, p + e);
    BuiltBounds(d, t, lens);
    DecodeLess(t, lens, p, e);
  }

  /** The extra bits of a length. */
  method WideLenExt(src: seq<Byte>, r: Regs, length: nat, extra: nat, ghost inp0: nat, ghost entry: Config,
      ghost c: Config)
    returns (r': Regs, len: nat, ghost c': Config)
    requires Wide(src, entry, r, c) && c.s.mode.LenExt? && c.s.mode.length == length && c.s.mode.extra == extra
    requires Supply(src, r, inp0, 33)
    ensures Wide(src, entry, r', c') && c'.s == c.s.(mode := Mode.Dist(c.s.mode.t, len)) && 3 <= len <= MAX_LENGTH
    ensures Supply(src, r', inp0, 28) && r'.inp >= r.inp && r'.bits <= r.bits + 8 * (r'.inp - r.inp)
  {
    hide Wide, Pow2, FromBits, Trees.Valid, State.Valid;
    r', len, c' := r, length, c;
    WideValid(src, entry, r, c);
    LenExtraBound(c.s);
    if extra > 0 {
      r', c' := MakeReady(src, r', extra, inp0, 33, entry, c');
    }
    WideValid(src, entry, r', c');
    LenExtIs(c'.s, c'.p);
    WideStep(src, entry, r', c');
    ghost var before := c'.p;
    c' := Config(Step(c'.s, c'.p).state, c'.p[extra..]);
    if extra > 0 {
      WideBits(src, entry, r', Config(c.s, before), extra);
      len := len + r'.hold % Pow2(extra);
      r' := Dropped(r', extra);
    } else {
      DropNothing(r');
      NothingRead(before);
    }
    WideValid(src, entry, r', c');
    DistBounds(c'.s);
  }

  lemma NothingRead(p: seq<bool>)
    ensures FromBits(p[..0]) == 0
  {
  }

  lemma WideBits(src: seq<Byte>, entry: Config, r: Regs, c: Config, n: nat)
    requires Wide(src, entry, r, c) && n <= r.bits
    ensures r.hold % Pow2(n) == FromBits(c.p[..n])
  {
    hide At, Excess, FromBits, Pow2;
    WideValid(src, entry, r, c);
    WideLow(src, r, c.p, n);
  }

  lemma LenExtraBound(s: State)
    requires s.Valid() && s.mode.LenExt?
    ensures s.mode.extra <= 5
  {
  }

  lemma DistBounds(s: State)
    requires s.Valid() && s.mode.Dist?
    ensures 3 <= s.mode.length <= MAX_LENGTH
  {
  }

  lemma DistExtraBound(s: State)
    requires s.Valid() && s.mode.DistExt?
    ensures s.mode.extra <= 13
  {
  }

  lemma MatchBounds(s: State)
    requires s.Valid() && s.mode.Matching?
    ensures 1 <= s.mode.offset <= MAX_DISTANCE
  {
  }

  /** The extra bits of a distance. */
  method WideDistExt(src: seq<Byte>, r: Regs, offset: nat, extra: nat, ghost inp0: nat, ghost entry: Config,
      ghost c: Config)
    returns (r': Regs, dist: nat, ghost c': Config)
    requires Wide(src, entry, r, c) && c.s.mode.DistExt? && c.s.mode.offset == offset && c.s.mode.extra == extra
    requires Supply(src, r, inp0, 13)
    ensures Wide(src, entry, r', c') && c'.s == c.s.(mode := Matching(c.s.mode.t, c.s.mode.length, dist))
              && 1 <= dist <= MAX_DISTANCE
    ensures Supply(src, r', inp0, 0) && r'.inp >= r.inp && r'.bits <= r.bits + 8 * (r'.inp - r.inp)
  {
    hide Wide, Pow2, FromBits, Trees.Valid, State.Valid;
    WideValid(src, entry, r, c);
    DistExtraBound(c.s);
    r', c' := MakeReady(src, r, extra, inp0, 13, entry, c);
    WideValid(src, entry, r', c');
    DistExtIs(c'.s, c'.p);
    WideBits(src, entry, r', c', extra);
    WideStep(src, entry, r', c');
    c' := Config(Step(c'.s, c'.p).state, c'.p[extra..]);
    dist := offset + r'.hold % Pow2(extra);
    r' := Dropped(r', extra);
    WideValid(src, entry, r', c');
    MatchBounds(c'.s);
  }

  /** A distance code. */
  method WideDist(src: seq<Byte>, distcode: Decoder, r: Regs, ghost entry: Config, ghost c: Config)
    returns (r': Regs, here: Code, ghost c': Config, ghost n: nat)
    requires Wide(src, entry, r, c) && c.s.mode.Dist? && Built(distcode, Dists, c.s.mode.t.dlens) && r.bits >= MAXBITS
    ensures Wide(src, entry, r', c') && c'.s == c.s.(mode := DistMode(c.s.mode.t, c.s.mode.length, here.op, here.val))
    ensures r'.inp == r.inp && r'.bits == r.bits - n && 1 <= n <= MAXBITS && (here.op == 64 || 16 <= here.op <= 29)
  {
    hide At, Excess, Pow2, FromBits, Decode, Built, DistMode;
    WideValid(src, entry, r, c);
    r', here, n := WideCode(src, distcode, Dists, r, c.s.mode.t.dlens, c.p);
    DistIs(c.s, c.p);
    DistOps(c.s.mode.t.dlens, c.p);
    WideStep(src, entry, r, c);
    c' := Config(Step(c.s, c.p).state, c.p[n..]);
  }

  /** A literal or length code. */
  method WideLen(src: seq<Byte>, lencode: Decoder, r: Regs, ghost entry: Config, ghost c: Config)
    returns (r': Regs, here: Code, ghost c': Config, ghost n: nat)
    requires Wide(src, entry, r, c) && c.s.mode.Len? && Built(lencode, Lens, c.s.mode.t.llens) && r.bits >= MAXBITS
    ensures Wide(src, entry, r', c') && c'.s == c.s.(mode := LenMode(c.s.mode.t, here.op, here.val))
    ensures r'.inp == r.inp && r'.bits == r.bits - n && 1 <= n <= MAXBITS
    ensures (here.op == 0 && here.val < 256) || here.op in {64, 72, 78, 96} || 16 <= here.op <= 21
  {
    hide At, Excess, Pow2, FromBits, Decode, Built, LenMode;
    WideValid(src, entry, r, c);
    r', here, n := WideCode(src, lencode, Lens, r, c.s.mode.t.llens, c.p);
    LenIs(c.s, c.p);
    LenOps(c.s.mode.t.llens, c.p);
    WideStep(src, entry, r, c);
    c' := Config(Step(c.s, c.p).state, c.p[n..]);
  }

  /** The rest of a length and its distance. */
  method WidePair(src: seq<Byte>, distcode: Decoder, r: Regs, length: nat, extra: nat, ghost inp0: nat,
      ghost entry: Config, ghost c: Config)
    returns (r': Regs, ok: bool, len: nat, dist: nat, ghost c': Config)
    requires Wide(src, entry, r, c) && c.s.mode.LenExt? && c.s.mode.length == length && c.s.mode.extra == extra
    requires Built(distcode, Dists, c.s.mode.t.dlens) && Supply(src, r, inp0, 33)
    ensures Wide(src, entry, r', c') && c'.s.last == c.s.last && c'.s.out == c.s.out
    ensures Supply(src, r', inp0, 0) && r'.inp >= r.inp && r'.bits <= r.bits + 8 * (r'.inp - r.inp)
    ensures if ok then c'.s.mode == Matching(c.s.mode.t, len, dist) && 3 <= len <= MAX_LENGTH
              && 1 <= dist <= MAX_DISTANCE
            else c'.s.mode == Bad
  {
    hide Wide, Pow2, FromBits, Decode, Built;
    var here;
    ghost var n;
    dist := 0;
    r', len, c' := WideLenExt(src, r, length, extra, inp0, entry, c);
    r', c' := MakeReady(src, r', 15, inp0, 28, entry, c');
    r', here, c', n := WideDist(src, distcode, r', entry, c');
    ok := (here.op / 16) % 2 == 1;
    if ok {
      r', dist, c' := WideDistExt(src, r', here.val, here.op % 16, inp0, entry, c');
    }
  }
}
