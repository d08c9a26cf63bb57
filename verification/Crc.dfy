/** The CRC-32 checksum: four bytes at a time, and the combination of two checksums (zlib's crc32.c). */
module Crc {

  /** The shift register: a polynomial over GF(2) with its lowest power in the highest bit. */
  datatype Reg = Reg(v: bv32)

  const ZERO := Reg(0)
  const ONES := Reg(0xFFFFFFFF)
  const POLY: bv32 := 0xEDB88320

  function X(a: Reg, b: Reg): Reg {
    Reg(a.v ^ b.v)
  }

  lemma XCommute(a: Reg, b: Reg)
    ensures X(a, b) == X(b, a)
  {
  }

  lemma XSelf(a: Reg)
    ensures X(a, a) == ZERO
  {
  }

  lemma XZero(a: Reg)
    ensures X(a, ZERO) == a
  {
  }

  /** Adding all ones inverts every bit. */
  lemma XOnes(a: Reg)
    ensures X(a, ONES) == Reg(!a.v)
  {
  }

  lemma XAssoc(a: Reg, b: Reg, c: Reg)
    ensures X(X(a, b), c) == X(a, X(b, c))
  {
  }

  lemma Interchange(a: Reg, b: Reg, c: Reg, d: Reg)
    ensures X(X(a, b), X(c, d)) == X(X(a, c), X(b, d))
  {
    hide X;
    XAssoc(a, b, X(c, d));
    XAssoc(b, c, d);
    XCommute(b, c);
    XAssoc(c, b, d);
    XAssoc(a, c, X(b, d));
  }

  // ---------- one bit at a time ----------

  function Half(c: Reg): Reg {
    Reg(c.v >> 1)
  }

  predicate Odd(c: Reg) {
    c.v & 1 == 1
  }

  function PolyIf(b: bool): Reg {
    if b then Reg(POLY) else ZERO
  }

  /** Multiplies by x, modulo the polynomial. */
  function Step(c: Reg): Reg {
    if Odd(c) then X(Reg(POLY), Half(c)) else Half(c)
  }

  lemma StepIs(c: Reg)
    ensures Step(c) == X(PolyIf(Odd(c)), Half(c))
  {
    hide X, Half;
    XZero(Half(c));
    XCommute(Half(c), ZERO);
  }

  lemma HalfLinear(a: Reg, b: Reg)
    ensures Half(X(a, b)) == X(Half(a), Half(b))
  {
  }

  lemma OddLinear(a: Reg, b: Reg)
    ensures Odd(X(a, b)) == (Odd(a) != Odd(b))
  {
  }

  lemma PolyIfLinear(p: bool, q: bool)
    ensures PolyIf(p != q) == X(PolyIf(p), PolyIf(q))
  {
    hide X;
    XSelf(Reg(POLY));
    XSelf(ZERO);
    XZero(Reg(POLY));
    XCommute(ZERO, Reg(POLY));
  }

  lemma StepLinear(a: Reg, b: Reg)
    ensures Step(X(a, b)) == X(Step(a), Step(b))
  {
    hide X, Step, Half, Odd, PolyIf;
    StepIs(a);
    StepIs(b);
    StepIs(X(a, b));
    HalfLinear(a, b);
    OddLinear(a, b);
    PolyIfLinear(Odd(a), Odd(b));
    Interchange(PolyIf(Odd(a)), Half(a), PolyIf(Odd(b)), Half(b));
  }

  function Steps(n: nat, c: Reg): Reg {
    if n == 0 then c else Step(Steps(n - 1, c))
  }

  lemma {:induction false} StepsLinear(n: nat, a: Reg, b: Reg)
    ensures Steps(n, X(a, b)) == X(Steps(n, a), Steps(n, b))
  {
    hide X, Step;
    if n > 0 {
      StepsLinear(n - 1, a, b);
      StepLinear(Steps(n - 1, a), Steps(n - 1, b));
    }
  }

  lemma {:induction false} StepsAdd(m: nat, n: nat, c: Reg)
    ensures Steps(m + n, c) == Steps(m, Steps(n, c))
  {
    hide Step;
    if m > 0 {
      StepsAdd(m - 1, n, c);
      assert m + n - 1 == m - 1 + n;
    }
  }

  lemma {:induction false} StepsZero(n: nat)
    ensures Steps(n, ZERO) == ZERO
  {
    if n > 0 {
      StepsZero(n - 1);
    }
  }

  function Low(b: bv8): Reg {
    Reg(b as bv32)
  }

  /** The register after one more byte, whose lowest bit comes first. */
  function Byte(c: Reg, b: bv8): Reg {
    Steps(8, X(c, Low(b)))
  }

  /** The register after all bytes of `data`. */
  function Update(c: Reg, data: seq<bv8>): Reg {
    if data == [] then c else Byte(Update(c, data[..|data| - 1]), data[|data| - 1])
  }

  /** The checksum (section 8 of RFC 1952): the register starts and ends inverted. */
  function Crc32(data: seq<bv8>): Reg {
    X(Update(ONES, data), ONES)
  }

  /** One bit: added to the register, which is then multiplied by x. */
  function Bit(c: Reg, b: bool): Reg {
    Step(X(c, LowBit(b)))
  }

  function Bit0(b: bv8): bool {
    b & 1 == 1
  }

  /** The byte bit by bit, lowest bit first. */
  function EightBits(c: Reg, b: bv8): Reg {
    Bit(Bit(Bit(Bit(Bit(Bit(Bit(Bit(c, Bit0(b)), Bit0(b >> 1)), Bit0(b >> 2)), Bit0(b >> 3)),
      Bit0(b >> 4)), Bit0(b >> 5)), Bit0(b >> 6)), Bit0(b >> 7))
  }

  function LowBit(b: bool): Reg {
    Reg(if b then 1 else 0)
  }

  lemma LowSplits(b: bv8)
    ensures Low(b) == X(LowBit(Bit0(b)), Reg(((b >> 1) as bv32) << 1))
  {
  }

  lemma EvenStep(b: bv8)
    ensures Step(Reg(((b >> 1) as bv32) << 1)) == Low(b >> 1)
  {
  }

  /** A byte's bits above the lowest wait in the register until they are shifted down. */
  lemma BitThenRest(c: Reg, b: bv8)
    ensures Step(X(c, Low(b))) == X(Bit(c, Bit0(b)), Low(b >> 1))
  {
    hide X, Step, Low, Bit0, LowBit;
    var high := Reg(((b >> 1) as bv32) << 1);
    LowSplits(b);
    XAssoc(c, LowBit(Bit0(b)), high);
    StepLinear(X(c, LowBit(Bit0(b))), high);
    EvenStep(b);
  }

  lemma Shifts(b: bv8)
    ensures (b >> 1) >> 1 == b >> 2 && (b >> 2) >> 1 == b >> 3 && (b >> 3) >> 1 == b >> 4 && (b >> 4) >> 1 == b >> 5
    ensures (b >> 5) >> 1 == b >> 6 && (b >> 6) >> 1 == b >> 7 && (b >> 7) >> 1 == 0
  {
  }

  /** Eight bits one at a time are the byte step. */
  lemma ByteIsEightBits(c: Reg, b: bv8)
    ensures Byte(c, b) == EightBits(c, b)
  {
    hide X, Step, Bit, Bit0, Low;
    Shifts(b);
    var c1 := Bit(c, Bit0(b));
    var c2 := Bit(c1, Bit0(b >> 1));
    var c3 := Bit(c2, Bit0(b >> 2));
    var c4 := Bit(c3, Bit0(b >> 3));
    var c5 := Bit(c4, Bit0(b >> 4));
    var c6 := Bit(c5, Bit0(b >> 5));
    var c7 := Bit(c6, Bit0(b >> 6));
    var s := X(c, Low(b));
    BitThenRest(c, b);
    BitThenRest(c1, b >> 1);
    BitThenRest(c2, b >> 2);
    BitThenRest(c3, b >> 3);
    BitThenRest(c4, b >> 4);
    BitThenRest(c5, b >> 5);
    BitThenRest(c6, b >> 6);
    BitThenRest(c7, b >> 7);
    LowZero();
    XZero(Bit(c7, Bit0(b >> 7)));
    assert Steps(1, s) == X(c1, Low(b >> 1)) && Steps(2, s) == X(c2, Low(b >> 2));
    assert Steps(3, s) == X(c3, Low(b >> 3)) && Steps(4, s) == X(c4, Low(b >> 4));
    assert Steps(5, s) == X(c5, Low(b >> 5)) && Steps(6, s) == X(c6, Low(b >> 6));
    assert Steps(7, s) == X(c7, Low(b >> 7));
  }

  lemma LowZero()
    ensures Low(0) == ZERO
  {
  }

  /** The checksum as a sequence of single bits. */
  function UpdateBits(c: Reg, data: seq<bv8>): Reg {
    if data == [] then c else EightBits(UpdateBits(c, data[..|data| - 1]), data[|data| - 1])
  }

  lemma {:induction false} UpdateIsBits(c: Reg, data: seq<bv8>)
    ensures Update(c, data) == UpdateBits(c, data)
  {
    hide Byte, EightBits;
    if data != [] {
      UpdateIsBits(c, data[..|data| - 1]);
      ByteIsEightBits(UpdateBits(c, data[..|data| - 1]), data[|data| - 1]);
    }
  }

  // ---------- tables ----------

  /** The register without its low byte, and its low byte. */
  function High(c: Reg): Reg {
    Reg(c.v & 0xFFFFFF00)
  }

  function LowByte(c: Reg): bv8 {
    (c.v & 0xFF) as bv8
  }

  lemma SplitByte(c: Reg)
    ensures c == X(Low(LowByte(c)), High(c))
  {
  }

  /** A number of 24 bits, shifted up by `k` bits. */
  function Up(w: bv24, k: nat): Reg
    requires k <= 8
  {
    match k
    case 0 => Reg(w as bv32)
    case 1 => Reg((w as bv32) << 1)
    case 2 => Reg((w as bv32) << 2)
    case 3 => Reg((w as bv32) << 3)
    case 4 => Reg((w as bv32) << 4)
    case 5 => Reg((w as bv32) << 5)
    case 6 => Reg((w as bv32) << 6)
    case 7 => Reg((w as bv32) << 7)
    case 8 => Reg((w as bv32) << 8)
  }

  lemma Back8(w: bv24)
    ensures Step(Up(w, 8)) == Up(w, 7)
  {
  }

  lemma Back7(w: bv24)
    ensures Step(Up(w, 7)) == Up(w, 6)
  {
  }

  lemma Back6(w: bv24)
    ensures Step(Up(w, 6)) == Up(w, 5)
  {
  }

  lemma Back5(w: bv24)
    ensures Step(Up(w, 5)) == Up(w, 4)
  {
  }

  lemma Back4(w: bv24)
    ensures Step(Up(w, 4)) == Up(w, 3)
  {
  }

  lemma Back3(w: bv24)
    ensures Step(Up(w, 3)) == Up(w, 2)
  {
  }

  lemma Back2(w: bv24)
    ensures Step(Up(w, 2)) == Up(w, 1)
  {
  }

  lemma Back1(w: bv24)
    ensures Step(Up(w, 1)) == Up(w, 0)
  {
  }

  lemma HighIs(c: Reg)
    ensures High(c) == Up((c.v >> 8) as bv24, 8) && Up((c.v >> 8) as bv24, 0) == Reg(c.v >> 8)
  {
  }

  /** Low zeros are shifted out. */
  lemma HighSteps(c: Reg)
    ensures Steps(8, High(c)) == Reg(c.v >> 8)
  {
    hide Step, High, Up;
    var w, h := (c.v >> 8) as bv24, High(c);
    HighIs(c);
    Back8(w);
    Back7(w);
    Back6(w);
    Back5(w);
    Back4(w);
    Back3(w);
    Back2(w);
    Back1(w);
    assert Steps(1, h) == Up(w, 7) && Steps(2, h) == Up(w, 6) && Steps(3, h) == Up(w, 5);
    assert Steps(4, h) == Up(w, 4) && Steps(5, h) == Up(w, 3) && Steps(6, h) == Up(w, 2) && Steps(7, h) == Up(w, 1);
  }

  /** Eight steps: the table's value for the low byte, and the rest shifted down. */
  lemma ByteStep(c: Reg)
    ensures Steps(8, c) == X(Steps(8, Low(LowByte(c))), Reg(c.v >> 8))
  {
    hide X, Steps, Low, LowByte, High;
    SplitByte(c);
    StepsLinear(8, Low(LowByte(c)), High(c));
    HighSteps(c);
  }

  /** The tables for a byte followed by none, one, two and three zero bytes. */
  class Tables {
    const t0: array<Reg>
    const t1: array<Reg>
    const t2: array<Reg>
    const t3: array<Reg>

    ghost predicate Valid()
      reads this, t0, t1, t2, t3
    {
      Filled(t0[..], 8) && Filled(t1[..], 16) && Filled(t2[..], 24) && Filled(t3[..], 32)
    }

    /** Fills the tables (make_crc_table). */
    constructor ()
      ensures Valid() && fresh(t0) && fresh(t1) && fresh(t2) && fresh(t3)
    {
      t0, t1, t2, t3 := new Reg[256], new Reg[256], new Reg[256], new Reg[256];
      new;
      FirstTable(t0);
      ZeroTables(t0, t1, t2, t3);
    }
  }

  /** The table's entries for the bytes before `n`. */
  ghost predicate FilledTo(t: seq<Reg>, n: bv8, m: nat) {
    |t| == 256 && forall b: bv8 :: b < n ==> t[b as int] == Steps(m, Low(b))
  }

  ghost predicate Filled(t: seq<Reg>, m: nat) {
    |t| == 256 && forall b: bv8 :: t[b as int] == Steps(m, Low(b))
  }

  lemma FillNext(t: seq<Reg>, n: bv8, c: Reg, m: nat)
    requires FilledTo(t, n, m) && c == Steps(m, Low(n))
    ensures n != 0xFF ==> FilledTo(t[n as int := c], n + 1, m)
    ensures n == 0xFF ==> Filled(t[n as int := c], m)
  {
    hide Steps, Low;
    var t' := t[n as int := c];
    forall b: bv8 | b < n || b == n
      ensures t'[b as int] == Steps(m, Low(b))
    {
    }
    forall b: bv8 | n == 0xFF || b < n + 1
      ensures t'[b as int] == Steps(m, Low(b))
    {
      assert b < n || b == n;
    }
  }

  /** The table of the single bytes, by eight steps each. */
  method FirstTable(t: array<Reg>)
    requires t.Length == 256
    modifies t
    ensures Filled(t[..], 8)
  {
    hide FilledTo, Filled, Low, Odd, Half;
    var poly := Terms();
    var n: bv8 := 0;
    NothingFilled(t[..], 8);
    while true
      invariant FilledTo(t[..], n, 8)
      decreases 0xFF - n
    {
      var c, k := Low(n), 0;
      while k < 8
        invariant 0 <= k <= 8 && c == Steps(k, Low(n))
      {
        c := if Odd(c) then X(Reg(poly), Half(c)) else Half(c);
        k := k + 1;
      }
      ghost var before := t[..];
      FillNext(before, n, c, 8);
      t[n as int] := c;
      assert t[..] == before[n as int := c];
      if n == 0xFF {
        break;
      }
      n := n + 1;
    }
  }

  lemma NothingFilled(t: seq<Reg>, m: nat)
    requires |t| == 256
    ensures FilledTo(t, 0, m)
  {
  }

  /** The tables for bytes that zero bytes follow. */
  method ZeroTables(t0: array<Reg>, t1: array<Reg>, t2: array<Reg>, t3: array<Reg>)
    requires t0.Length == t1.Length == t2.Length == t3.Length == 256 && Filled(t0[..], 8)
    requires t0 !in {t1, t2, t3} && t1 !in {t2, t3} && t2 != t3
    modifies t1, t2, t3
    ensures Filled(t1[..], 16) && Filled(t2[..], 24) && Filled(t3[..], 32)
  {
    hide FilledTo, Filled, Low, Steps;
    ghost var first := t0[..];
    var n: bv8 := 0;
    NothingFilled(t1[..], 16);
    NothingFilled(t2[..], 24);
    NothingFilled(t3[..], 32);
    while true
      invariant t0[..] == first && FilledTo(t1[..], n, 16) && FilledTo(t2[..], n, 24) && FilledTo(t3[..], n, 32)
      decreases 0xFF - n
    {
      ghost var b1, b2, b3 := t1[..], t2[..], t3[..];
      EntryOf(first, n, 8);
      var c := t0[n as int];
      c := ByTable(t0[..], c, 8, n);
      FillNext(b1, n, c, 16);
      t1[n as int] := c;
      assert t1[..] == b1[n as int := c];
      c := ByTable(t0[..], c, 16, n);
      FillNext(b2, n, c, 24);
      t2[n as int] := c;
      assert t2[..] == b2[n as int := c];
      c := ByTable(t0[..], c, 24, n);
      FillNext(b3, n, c, 32);
      t3[n as int] := c;
      assert t3[..] == b3[n as int := c] && t0[..] == first;
      if n == 0xFF {
        break;
      }
      n := n + 1;
    }
  }

  lemma EntryOf(t: seq<Reg>, n: bv8, m: nat)
    requires Filled(t, m)
    ensures |t| == 256 && t[n as int] == Steps(m, Low(n))
  {
  }

  /** The polynomial without x^32, from its terms. */
  function Terms(): (poly: bv32)
    ensures poly == POLY
  {
    (1 << 31) | (1 << 30) | (1 << 29) | (1 << 27) | (1 << 26) | (1 << 24) | (1 << 23)
    | (1 << 21) | (1 << 20) | (1 << 19) | (1 << 15) | (1 << 9) | (1 << 8) | (1 << 5)
  }

  /** One more zero byte behind the byte `n`, by the first table. */
  function ByTable(t: seq<Reg>, c: Reg, ghost m: nat, ghost n: bv8): (r: Reg)
    requires Filled(t, 8) && c == Steps(m, Low(n))
    ensures r == Steps(m + 8, Low(n))
  {
    ByteStep(c);
    StepsAdd(8, m, Low(n));
    X(t[LowByte(c) as int], Reg(c.v >> 8))
  }

  // ---------- four bytes at a time ----------

  function At1(b: bv8): Reg {
    Reg((b as bv32) << 8)
  }

  function At2(b: bv8): Reg {
    Reg((b as bv32) << 16)
  }

  function At3(b: bv8): Reg {
    Reg((b as bv32) << 24)
  }

  /** The word that four bytes make in memory, lowest byte first. */
  function Word(b0: bv8, b1: bv8, b2: bv8, b3: bv8): Reg {
    X(X(Low(b0), At1(b1)), X(At2(b2), At3(b3)))
  }

  lemma At1Steps(b: bv8)
    ensures Steps(8, At1(b)) == Low(b)
  {
    hide Steps;
    At1High(b);
    HighSteps(At1(b));
  }

  lemma At1High(b: bv8)
    ensures High(At1(b)) == At1(b) && Reg(At1(b).v >> 8) == Low(b)
  {
  }

  lemma At2Steps(b: bv8)
    ensures Steps(16, At2(b)) == Low(b)
  {
    hide Steps;
    At2High(b);
    HighSteps(At2(b));
    At1Steps(b);
    StepsAdd(8, 8, At2(b));
  }

  lemma At2High(b: bv8)
    ensures High(At2(b)) == At2(b) && Reg(At2(b).v >> 8) == At1(b)
  {
  }

  lemma At3Steps(b: bv8)
    ensures Steps(24, At3(b)) == Low(b)
  {
    hide Steps;
    At3High(b);
    HighSteps(At3(b));
    At2Steps(b);
    StepsAdd(16, 8, At3(b));
  }

  lemma At3High(b: bv8)
    ensures High(At3(b)) == At3(b) && Reg(At3(b).v >> 8) == At2(b)
  {
  }

  /** A later byte can be added before the steps of the earlier ones. */
  lemma ByteEarlier(n: nat, x: Reg, up: Reg, b: bv8)
    requires Steps(n, up) == Low(b)
    ensures Byte(Steps(n, x), b) == Steps(n + 8, X(x, up))
  {
    hide Steps, X, Low;
    StepsLinear(n, x, up);
    StepsAdd(8, n, X(x, up));
  }

  /** Four bytes are a word and thirty-two steps. */
  lemma FourBytes(c: Reg, b0: bv8, b1: bv8, b2: bv8, b3: bv8)
    ensures Byte(Byte(Byte(Byte(c, b0), b1), b2), b3) == Steps(32, X(c, Word(b0, b1, b2, b3)))
  {
    hide Steps, X, Low, At1, At2, At3;
    At1Steps(b1);
    At2Steps(b2);
    At3Steps(b3);
    var x0 := X(c, Low(b0));
    ByteEarlier(8, x0, At1(b1), b1);
    ByteEarlier(16, X(x0, At1(b1)), At2(b2), b2);
    ByteEarlier(24, X(X(x0, At1(b1)), At2(b2)), At3(b3), b3);
    XAssoc(c, Low(b0), At1(b1));
    XAssoc(X(x0, At1(b1)), At2(b2), At3(b3));
    XAssoc(c, X(Low(b0), At1(b1)), X(At2(b2), At3(b3)));
  }

  /** The four bytes of a register. */
  function Byte1(c: Reg): bv8 {
    ((c.v >> 8) & 0xFF) as bv8
  }

  function Byte2(c: Reg): bv8 {
    ((c.v >> 16) & 0xFF) as bv8
  }

  function Byte3(c: Reg): bv8 {
    (c.v >> 24) as bv8
  }

  lemma FourLanes(c: Reg)
    ensures c == Word(LowByte(c), Byte1(c), Byte2(c), Byte3(c))
  {
  }

  /** Thirty-two steps by four tables. */
  lemma SliceByFour(c: Reg)
    ensures Steps(32, c) == X(X(X(Steps(32, Low(LowByte(c))), Steps(24, Low(Byte1(c)))), Steps(16, Low(Byte2(c)))),
              Steps(8, Low(Byte3(c))))
  {
    hide Steps, X, Low, At1, At2, At3, LowByte, Byte1, Byte2, Byte3;
    var b0, b1, b2, b3 := LowByte(c), Byte1(c), Byte2(c), Byte3(c);
    FourLanes(c);
    StepsLinear(32, X(Low(b0), At1(b1)), X(At2(b2), At3(b3)));
    StepsLinear(32, Low(b0), At1(b1));
    StepsLinear(32, At2(b2), At3(b3));
    StepsAdd(24, 8, At1(b1));
    StepsAdd(16, 16, At2(b2));
    StepsAdd(8, 24, At3(b3));
    At1Steps(b1);
    At2Steps(b2);
    At3Steps(b3);
    XAssoc(X(Steps(32, Low(b0)), Steps(24, Low(b1))), Steps(16, Low(b2)), Steps(8, Low(b3)));
  }

  lemma UpdateOne(c: Reg, data: seq<bv8>, i: nat)
    requires i < |data|
    ensures Update(c, data[..i + 1]) == Byte(Update(c, data[..i]), data[i])
  {
    assert data[..i + 1][..i] == data[..i];
  }

  /** The checksum with the tables: bytes up to an aligned address, then words, then the bytes that are left. */
  method Crc32Little(t: Tables, crc: Reg, buf: array<bv8>, addr: nat) returns (r: Reg)
    requires t.Valid()
    ensures r == X(Update(X(crc, ONES), buf[..]), ONES)
  {
    hide Byte, X, Update, Filled;
    ghost var data, start := buf[..], X(crc, ONES);
    assert Update(start, data[..0]) == start by {
      NoData(start);
      assert data[..0] == [];
    }
    var c, i := X(crc, ONES), 0;
    while i < buf.Length && (addr + i) % 4 != 0
      invariant 0 <= i <= buf.Length && c == Update(start, data[..i])
    {
      UpdateOne(start, data, i);
      c := OneByte(t, c, buf[i]);
      i := i + 1;
    }
    while buf.Length - i >= 32
      invariant 0 <= i <= buf.Length && c == Update(start, data[..i])
    {
      var k := 0;
      ghost var i0 := i;
      while k < 8
        invariant 0 <= k <= 8 && i == i0 + 4 * k && c == Update(start, data[..i])
      {
        FourMore(start, data, i);
        c := DoLit4(t, c, buf[i], buf[i + 1], buf[i + 2], buf[i + 3]);
        i := i + 4;
        k := k + 1;
      }
    }
    while buf.Length - i >= 4
      invariant 0 <= i <= buf.Length && c == Update(start, data[..i])
    {
      FourMore(start, data, i);
      c := DoLit4(t, c, buf[i], buf[i + 1], buf[i + 2], buf[i + 3]);
      i := i + 4;
    }
    while i < buf.Length
      invariant 0 <= i <= buf.Length && c == Update(start, data[..i])
    {
      UpdateOne(start, data, i);
      c := OneByte(t, c, buf[i]);
      i := i + 1;
    }
    assert data[..i] == data;
    r := X(c, ONES);
  }

  lemma NoData(c: Reg)
    ensures Update(c, []) == c
  {
  }

  lemma FourMore(c: Reg, data: seq<bv8>, i: nat)
    requires i + 4 <= |data|
    ensures Update(c, data[..i + 4]) ==
            Byte(Byte(Byte(Byte(Update(c, data[..i]), data[i]), data[i + 1]), data[i + 2]), data[i + 3])
  {
    hide Byte, Update;
    UpdateOne(c, data, i);
    UpdateOne(c, data, i + 1);
    UpdateOne(c, data, i + 2);
    UpdateOne(c, data, i + 3);
  }

  /** One byte by the first table. */
  method OneByte(t: Tables, c: Reg, b: bv8) returns (r: Reg)
    requires t.Valid()
    ensures r == Byte(c, b)
  {
    hide X, Steps, Low;
    var x := X(c, Low(b));
    LowByteOf(c, b);
    ByteStep(x);
    ShiftedByte(c, b);
    EntryOf(t.t0[..], LowByte(x), 8);
    r := X(t.t0[LowByte(x) as int], Reg(c.v >> 8));
  }

  lemma LowByteOf(c: Reg, b: bv8)
    ensures LowByte(X(c, Low(b))) == LowByte(c) ^ b
  {
  }

  lemma ShiftedByte(c: Reg, b: bv8)
    ensures X(c, Low(b)).v >> 8 == c.v >> 8
  {
  }

  /** A word by the four tables. */
  method DoLit4(t: Tables, c: Reg, b0: bv8, b1: bv8, b2: bv8, b3: bv8) returns (r: Reg)
    requires t.Valid()
    ensures r == Byte(Byte(Byte(Byte(c, b0), b1), b2), b3)
  {
    hide X, Steps, Low, Byte, Word, LowByte, Byte1, Byte2, Byte3;
    var x := X(c, Word(b0, b1, b2, b3));
    FourBytes(c, b0, b1, b2, b3);
    SliceByFour(x);
    EntryOf(t.t3[..], LowByte(x), 32);
    EntryOf(t.t2[..], Byte1(x), 24);
    EntryOf(t.t1[..], Byte2(x), 16);
    EntryOf(t.t0[..], Byte3(x), 8);
    r := X(X(X(t.t3[LowByte(x) as int], t.t2[Byte1(x) as int]), t.t1[Byte2(x) as int]), t.t0[Byte3(x) as int]);
  }

  // ---------- combining two checksums ----------

  /** The register's start only adds to the result, multiplied once for every bit. */
  lemma {:induction false} UpdateLinear(c: Reg, d: Reg, data: seq<bv8>)
    ensures Update(X(c, d), data) == X(Update(c, data), Steps(8 * |data|, d))
  {
    hide X, Steps, Low;
    if data == [] {
      NoSteps(d);
    } else {
      var front, b, n := data[..|data| - 1], data[|data| - 1], 8 * (|data| - 1);
      UpdateLinear(c, d, front);
      var u, v := Update(c, front), Steps(n, d);
      XAssoc(u, v, Low(b));
      XCommute(v, Low(b));
      XAssoc(u, Low(b), v);
      StepsLinear(8, X(u, Low(b)), v);
      StepsAdd(8, n, d);
      assert 8 + n == 8 * |data|;
    }
  }

  lemma NoSteps(c: Reg)
    ensures Steps(0, c) == c
  {
  }

  lemma {:induction false} UpdateAppend(c: Reg, a: seq<bv8>, b: seq<bv8>)
    ensures Update(c, a + b) == Update(Update(c, a), b)
  {
    hide Byte;
    if b == [] {
      assert a + b == a;
    } else {
      assert (a + b)[..|a + b| - 1] == a + b[..|b| - 1];
      UpdateAppend(c, a, b[..|b| - 1]);
    }
  }

  /** What combining must compute: the checksum of a concatenation from the checksums of its parts. */
  lemma ConcatenatedCrc(a: seq<bv8>, b: seq<bv8>)
    ensures Crc32(a + b) == X(Steps(8 * |b|, Crc32(a)), Crc32(b))
  {
    hide X, Update, Steps;
    var u, s := Update(ONES, a), Steps(8 * |b|, Crc32(a));
    UpdateAppend(ONES, a, b);
    XAssoc(u, ONES, ONES);
    XSelf(ONES);
    XZero(u);
    XCommute(ONES, X(u, ONES));
    assert u == X(ONES, Crc32(a));
    UpdateLinear(ONES, Crc32(a), b);
    XAssoc(Update(ONES, b), s, ONES);
    XCommute(s, ONES);
    XAssoc(Update(ONES, b), ONES, s);
    XCommute(s, Crc32(b));
  }

  function Double(c: Reg): Reg {
    Reg(c.v << 1)
  }

  /** The register shifted up by `n` bits. */
  function Shl(c: Reg, n: nat): Reg {
    if n == 0 then c else Double(Shl(c, n - 1))
  }

  function LowestOnly(c: Reg): Reg {
    if Odd(c) then Reg(1) else ZERO
  }

  lemma DoubleLinear(a: Reg, b: Reg)
    ensures Double(X(a, b)) == X(Double(a), Double(b))
  {
  }

  lemma {:induction false} ShlLinear(a: Reg, b: Reg, n: nat)
    ensures Shl(X(a, b), n) == X(Shl(a, n), Shl(b, n))
  {
    hide X, Double;
    if n > 0 {
      ShlLinear(a, b, n - 1);
      DoubleLinear(Shl(a, n - 1), Shl(b, n - 1));
    }
  }

  lemma {:induction false} ShlDouble(c: Reg, n: nat)
    ensures Shl(Double(c), n) == Shl(c, n + 1)
  {
    hide Double;
    if n > 0 {
      ShlDouble(c, n - 1);
    }
  }

  lemma {:induction false} ShlZero(n: nat)
    ensures Shl(ZERO, n) == ZERO
  {
    if n > 0 {
      ShlZero(n - 1);
    }
  }

  lemma SplitLowest(c: Reg)
    ensures c == X(LowestOnly(c), Double(Half(c)))
  {
  }

  lemma HalfSmaller(c: Reg)
    requires c != ZERO
    ensures Half(c).v < c.v
  {
  }

  /** A matrix over GF(2), as the images of the 32 unit vectors: it stands for `k` zero bits. */
  ghost predicate Zeros(mat: seq<Reg>, k: nat) {
    |mat| == 32 && forall n :: 0 <= n < 32 ==> mat[n] == Steps(k, Shl(Reg(1), n))
  }

  function And(a: Reg, b: Reg): Reg {
    Reg(a.v & b.v)
  }

  /** All bits that a register may still have after `n` shifts. */
  function Mask(n: nat): Reg {
    if n == 0 then ONES else Half(Mask(n - 1))
  }

  predicate Within(c: Reg, n: nat) {
    And(c, Mask(n)) == c
  }

  lemma HalfAnd(a: Reg, b: Reg)
    ensures Half(And(a, b)) == And(Half(a), Half(b))
  {
  }

  lemma MaskNext(c: Reg, n: nat)
    requires Within(c, n)
    ensures Within(Half(c), n + 1)
  {
    hide And, Half;
    HalfAnd(c, Mask(n));
  }

  lemma MaskEnd()
    ensures Mask(32) == ZERO
  {
    assert Mask(8) == Reg(0xFFFFFF) by {
      assert Mask(4) == Reg(0xFFFFFFF);
    }
    assert Mask(16) == Reg(0xFFFF) by {
      assert Mask(12) == Reg(0xFFFFF);
    }
    assert Mask(24) == Reg(0xFF) by {
      assert Mask(20) == Reg(0xFFF);
    }
    assert Mask(28) == Reg(0xF);
  }

  /** Taking the lowest bit off a register and adding its image. */
  lemma TimesStep(sum: Reg, v: Reg, n: nat, k: nat, all: Reg)
    requires X(sum, Steps(k, Shl(v, n))) == all
    ensures X(X(sum, Steps(k, Shl(LowestOnly(v), n))), Steps(k, Shl(Half(v), n + 1))) == all
  {
    hide X, Steps, Half, Shl, Double, LowestOnly;
    var one, rest := LowestOnly(v), Half(v);
    SplitLowest(v);
    ShlLinear(one, Double(rest), n);
    ShlDouble(rest, n);
    StepsLinear(k, Shl(one, n), Shl(rest, n + 1));
    XAssoc(sum, Steps(k, Shl(one, n)), Steps(k, Shl(rest, n + 1)));
  }

  lemma NoImage(n: nat, k: nat, sum: Reg)
    ensures Steps(k, Shl(ZERO, n)) == ZERO && X(sum, Steps(k, Shl(ZERO, n))) == sum
  {
    hide X;
    ShlZero(n);
    StepsZero(k);
    XZero(sum);
  }

  /** The matrix times a vector: applying the zero bits to a register. */
  method MatrixTimes(mat: array<Reg>, vec: Reg, ghost k: nat) returns (sum: Reg)
    requires Zeros(mat[..], k)
    ensures sum == Steps(k, vec)
  {
    hide X, Steps, Half, Odd, Shl, Within, LowestOnly;
    sum := ZERO;
    var v, n: nat := vec, 0;
    XCommute(ZERO, Steps(k, vec));
    XZero(Steps(k, vec));
    ShlNone(vec);
    while v != ZERO
      invariant n <= 32 && Within(v, n) && X(sum, Steps(k, Shl(v, n))) == Steps(k, vec)
      decreases v.v
    {
      NotDone(v, n);
      TimesStep(sum, v, n, k, Steps(k, vec));
      LowestIs(v);
      NoImage(n, k, sum);
      if Odd(v) {
        sum := X(sum, mat[n]);
      }
      HalfSmaller(v);
      MaskNext(v, n);
      v := Half(v);
      n := n + 1;
    }
    NoImage(n, k, sum);
  }

  lemma LowestIs(c: Reg)
    ensures LowestOnly(c) == if Odd(c) then Reg(1) else ZERO
  {
  }

  lemma ShlNone(c: Reg)
    ensures Shl(c, 0) == c && Within(c, 0)
  {
  }

  lemma NotDone(v: Reg, n: nat)
    requires n <= 32 && Within(v, n) && v != ZERO
    ensures n < 32
  {
    MaskEnd();
  }

  /** Squaring a matrix doubles the number of zero bits. */
  method MatrixSquare(square: array<Reg>, mat: array<Reg>, ghost k: nat)
    requires square.Length == 32 && square != mat && Zeros(mat[..], k)
    modifies square
    ensures Zeros(square[..], 2 * k)
  {
    hide Steps, Shl;
    var n := 0;
    while n < 32
      invariant 0 <= n <= 32 && mat[..] == old(mat[..])
      invariant forall i :: 0 <= i < n ==> square[i] == Steps(2 * k, Shl(Reg(1), i))
    {
      var r := MatrixTimes(mat, mat[n], k);
      StepsAdd(k, k, Shl(Reg(1), n));
      assert k + k == 2 * k;
      square[n] := r;
      n := n + 1;
    }
  }

  lemma Units()
    ensures Shl(Reg(1), 0) == Reg(0x1)
    ensures Shl(Reg(1), 1) == Reg(0x2)
    ensures Shl(Reg(1), 2) == Reg(0x4)
    ensures Shl(Reg(1), 3) == Reg(0x8)
    ensures Shl(Reg(1), 4) == Reg(0x10)
    ensures Shl(Reg(1), 5) == Reg(0x20)
    ensures Shl(Reg(1), 6) == Reg(0x40)
    ensures Shl(Reg(1), 7) == Reg(0x80)
    ensures Shl(Reg(1), 8) == Reg(0x100)
    ensures Shl(Reg(1), 9) == Reg(0x200)
    ensures Shl(Reg(1), 10) == Reg(0x400)
    ensures Shl(Reg(1), 11) == Reg(0x800)
    ensures Shl(Reg(1), 12) == Reg(0x1000)
    ensures Shl(Reg(1), 13) == Reg(0x2000)
    ensures Shl(Reg(1), 14) == Reg(0x4000)
    ensures Shl(Reg(1), 15) == Reg(0x8000)
    ensures Shl(Reg(1), 16) == Reg(0x10000)
    ensures Shl(Reg(1), 17) == Reg(0x20000)
    ensures Shl(Reg(1), 18) == Reg(0x40000)
    ensures Shl(Reg(1), 19) == Reg(0x80000)
    ensures Shl(Reg(1), 20) == Reg(0x100000)
    ensures Shl(Reg(1), 21) == Reg(0x200000)
    ensures Shl(Reg(1), 22) == Reg(0x400000)
    ensures Shl(Reg(1), 23) == Reg(0x800000)
    ensures Shl(Reg(1), 24) == Reg(0x1000000)
    ensures Shl(Reg(1), 25) == Reg(0x2000000)
    ensures Shl(Reg(1), 26) == Reg(0x4000000)
    ensures Shl(Reg(1), 27) == Reg(0x8000000)
    ensures Shl(Reg(1), 28) == Reg(0x10000000)
    ensures Shl(Reg(1), 29) == Reg(0x20000000)
    ensures Shl(Reg(1), 30) == Reg(0x40000000)
    ensures Shl(Reg(1), 31) == Reg(0x80000000)
  {
  }

  /** A unit vector but the lowest is shifted down by a step. */
  lemma UnitStep(n: nat)
    requires 1 <= n < 32
    ensures Step(Shl(Reg(1), n)) == Shl(Reg(1), n - 1)
  {
    Units();
  }

  lemma FirstStep()
    ensures Step(Reg(1)) == Reg(POLY)
  {
  }

  /** The zero bits that stand for half of the length's bits can be applied first. */
  lemma HalfLength(u: nat, len: nat, c: Reg)
    ensures u * (len / 2) >= 0 && 2 * u * (len / 2) >= 0 && u * len >= 0
    ensures len % 2 == 1 ==> Steps(2 * u * (len / 2), Steps(u, c)) == Steps(u * len, c)
    ensures len % 2 == 0 ==> Steps(2 * u * (len / 2), c) == Steps(u * len, c)
  {
    hide Steps;
    var h := len / 2;
    Products(u, len, h);
    StepsAdd(2 * u * h, u, c);
  }

  lemma Products(u: nat, len: nat, h: nat)
    requires h == len / 2
    ensures u * h >= 0 && 2 * u * h >= 0 && u * len >= 0 && u * len == 2 * u * h + (if len % 2 == 1 then u else 0)
  {
    var r := len % 2;
    assert len == 2 * h + r;
    assert u * (2 * h + r) == 2 * u * h + u * r;
  }

  /** The operator for one zero bit. */
  method OneZeroBit(odd: array<Reg>)
    requires odd.Length == 32
    modifies odd
    ensures Zeros(odd[..], 1)
  {
    hide Step;
    odd[0] := Reg(POLY);
    var row, n := Reg(1), 1;
    FirstStep();
    ShlNone(Reg(1));
    assert odd[0] == Steps(1, Shl(Reg(1), 0));
    while n < 32
      invariant 1 <= n <= 32 && row == Shl(Reg(1), n - 1)
      invariant forall i :: 0 <= i < n ==> odd[i] == Steps(1, Shl(Reg(1), i))
    {
      UnitStep(n);
      odd[n] := row;
      row := Double(row);
      n := n + 1;
    }
  }

  /** The checksum of a concatenation, from the checksums of its parts and the length of the second one. */
  method Crc32Combine(crc1: Reg, crc2: Reg, len2: int) returns (crc: Reg)
    ensures len2 <= 0 ==> crc == crc1
    ensures len2 > 0 ==> crc == X(Steps(8 * len2, crc1), crc2)
    ensures forall a: seq<bv8>, b: seq<bv8> :: crc1 == Crc32(a) && crc2 == Crc32(b) && len2 == |b| > 0 ==>
              crc == Crc32(a + b)
  {
    hide X, Steps, Zeros, Update;
    if len2 <= 0 {
      return crc1;
    }
    var even, odd := new Reg[32], new Reg[32];
    OneZeroBit(odd);
    MatrixSquare(even, odd, 1);
    MatrixSquare(odd, even, 2);
    var len: nat := len2;
    crc := crc1;
    ghost var u: nat := 8;
    while true
      invariant len > 0 && u >= 8 && u % 2 == 0 && Zeros(odd[..], u / 2) && odd.Length == even.Length == 32
                && odd != even
      invariant u * len >= 0 && Steps(u * len, crc) == Steps(8 * len2, crc1)
      decreases len
    {
      MatrixSquare(even, odd, u / 2);
      HalfLength(u, len, crc);
      if len % 2 == 1 {
        crc := MatrixTimes(even, crc, u);
      }
      len := len / 2;
      if len == 0 {
        Done(2 * u, crc);
        break;
      }
      MatrixSquare(odd, even, u);
      HalfLength(2 * u, len, crc);
      if len % 2 == 1 {
        crc := MatrixTimes(odd, crc, 2 * u);
      }
      len := len / 2;
      u := 4 * u;
      if len == 0 {
        Done(u, crc);
        break;
      }
    }
    crc := X(crc, crc2);
    forall a: seq<bv8>, b: seq<bv8> | crc1 == Crc32(a) && crc2 == Crc32(b) && len2 == |b| > 0
      ensures crc == Crc32(a + b)
    {
      ConcatenatedCrc(a, b);
    }
  }

  lemma Done(u: nat, c: Reg)
    ensures Steps(u * 0, c) == c
  {
  }
}
