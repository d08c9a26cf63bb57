/** The XTS mode: tweaks, ciphertext stealing, and decryption as the inverse of encryption (mbedtls's aes.c). */
module Xts {

  datatype Mode = Encrypt | Decrypt | Unknown

  datatype Status = Success | BadInputData | InvalidInputLength

  type Block = s: seq<bv8> | |s| == 16 witness seq(16, _ => 0)

  /** The cipher with one key: a permutation of the blocks, or its inverse. */
  type Cipher = Block -> Block

  function XorSeq(a: seq<bv8>, b: seq<bv8>): (c: seq<bv8>)
    requires |a| == |b|
    ensures |c| == |a|
  {
    seq(|a|, i requires 0 <= i < |a| => a[i] ^ b[i])
  }

  lemma XorSeqTwice(a: seq<bv8>, b: seq<bv8>)
    requires |a| == |b|
    ensures XorSeq(XorSeq(a, b), b) == a
  {
    forall i | 0 <= i < |a|
      ensures XorSeq(XorSeq(a, b), b)[i] == a[i]
    {
      XorByteTwice(a[i], b[i]);
    }
  }

  lemma XorByteTwice(x: bv8, y: bv8)
    ensures (x ^ y) ^ y == x
  {
  }

  // ---------- the tweak ----------

  /** The word of eight bytes, lowest byte first. */
  function Get64(s: seq<bv8>): bv64
    requires |s| == 8
  {
    (s[0] as bv64) | ((s[1] as bv64) << 8) | ((s[2] as bv64) << 16) | ((s[3] as bv64) << 24)
    | ((s[4] as bv64) << 32) | ((s[5] as bv64) << 40) | ((s[6] as bv64) << 48) | ((s[7] as bv64) << 56)
  }

  function Put64(v: bv64): (s: seq<bv8>)
    ensures |s| == 8
  {
    [(v & 0xFF) as bv8, ((v >> 8) & 0xFF) as bv8, ((v >> 16) & 0xFF) as bv8, ((v >> 24) & 0xFF) as bv8,
     ((v >> 32) & 0xFF) as bv8, ((v >> 40) & 0xFF) as bv8, ((v >> 48) & 0xFF) as bv8, ((v >> 56) & 0xFF) as bv8]
  }

  lemma GetPut(v: bv64)
    ensures Get64(Put64(v)) == v
  {
  }

  /** A block as an element of GF(2^128): the coefficients of x^0 to x^127, lowest bit first. */
  function Element(b: Block): bv128 {
    Join(Get64(b[..8]), Get64(b[8..]))
  }

  function Join(lo: bv64, hi: bv64): bv128 {
    (lo as bv128) | ((hi as bv128) << 64)
  }

  /** Byte `k` of a block has the coefficients of x^(8k) and up. */
  lemma ElementBytes(b: Block)
    ensures var v := Element(b);
      && (v & 0xFF) as bv8 == b[0] && ((v >> 8) & 0xFF) as bv8 == b[1] && ((v >> 16) & 0xFF) as bv8 == b[2]
      && ((v >> 24) & 0xFF) as bv8 == b[3] && ((v >> 32) & 0xFF) as bv8 == b[4] && ((v >> 40) & 0xFF) as bv8 == b[5]
      && ((v >> 48) & 0xFF) as bv8 == b[6] && ((v >> 56) & 0xFF) as bv8 == b[7] && ((v >> 64) & 0xFF) as bv8 == b[8]
      && ((v >> 72) & 0xFF) as bv8 == b[9] && ((v >> 80) & 0xFF) as bv8 == b[10] && ((v >> 88) & 0xFF) as bv8 == b[11]
      && ((v >> 96) & 0xFF) as bv8 == b[12] && ((v >> 104) & 0xFF) as bv8 == b[13]
      && ((v >> 112) & 0xFF) as bv8 == b[14] && ((v >> 120) & 0xFF) as bv8 == b[15]
  {
  }

  function LowTimesX(a: bv64, b: bv64): bv64 {
    (a << 1) ^ ((0x0087 as bv64) >> (8 - ((b >> 63) << 3)))
  }

  function HighTimesX(a: bv64, b: bv64): bv64 {
    (a >> 63) | (b << 1)
  }

  /** The tweak's step, with two 64-bit words. */
  function MulX(x: Block): Block {
    var a, b := Get64(x[..8]), Get64(x[8..]);
    var ra := LowTimesX(a, b);
    var rb := HighTimesX(a, b);
    Put64(ra) + Put64(rb)
  }

  function Doubled(v: bv128): bv128 {
    v << 1
  }

  function Reduced(v: bv128): bv128 {
    v ^ 0x87
  }

  /** The coefficient of x^127 is 1. */
  predicate Full(v: bv128) {
    v >> 127 == 1
  }

  /** The polynomial `v` times x, reduced by x^128 + x^7 + x^2 + x + 1. */
  function TimesX(v: bv128): bv128 {
    if Full(v) then Reduced(Doubled(v)) else Doubled(v)
  }

  predicate Top(b: bv64) {
    b >> 63 == 1
  }

  function Doubled64(a: bv64): bv64 {
    a << 1
  }

  function Reduced64(a: bv64): bv64 {
    a ^ 0x87
  }

  lemma ShiftJoin(a: bv64, b: bv64)
    ensures Join(a, b) << 1 == Join(a << 1, (a >> 63) | (b << 1))
  {
  }

  lemma DoubledJoin(a: bv64, b: bv64)
    ensures Doubled(Join(a, b)) == Join(Doubled64(a), HighTimesX(a, b))
  {
    hide Join;
    ShiftJoin(a, b);
  }

  lemma XorJoin(a: bv64, b: bv64)
    ensures Join(a, b) ^ 0x87 == Join(a ^ 0x87, b)
  {
  }

  lemma ReducedJoin(a: bv64, b: bv64)
    ensures Reduced(Join(a, b)) == Join(Reduced64(a), b)
  {
    hide Join;
    XorJoin(a, b);
  }

  lemma TopJoin(a: bv64, b: bv64)
    ensures Full(Join(a, b)) <==> Top(b)
  {
  }

  lemma LowWord(a: bv64, b: bv64)
    ensures LowTimesX(a, b) == if Top(b) then Reduced64(Doubled64(a)) else Doubled64(a)
  {
  }

  lemma WordsTimesX(a: bv64, b: bv64)
    ensures Join(LowTimesX(a, b), HighTimesX(a, b)) == TimesX(Join(a, b))
  {
    hide Join, LowTimesX, HighTimesX, Doubled, Reduced, Full, Top, Doubled64, Reduced64;
    TopJoin(a, b);
    LowWord(a, b);
    DoubledJoin(a, b);
    ReducedJoin(Doubled64(a), HighTimesX(a, b));
  }

  /** The step multiplies by x in GF(2^128). */
  lemma MulXIsTimesX(x: Block)
    ensures Element(MulX(x)) == TimesX(Element(x))
  {
    hide Get64, Put64, TimesX, Join, LowTimesX, HighTimesX;
    var a, b := Get64(x[..8]), Get64(x[8..]);
    var ra, rb := LowTimesX(a, b), HighTimesX(a, b);
    GetPut(ra);
    GetPut(rb);
    assert MulX(x)[..8] == Put64(ra) && MulX(x)[8..] == Put64(rb);
    WordsTimesX(a, b);
  }

  /** The reduction takes away x^128 + x^7 + x^2 + x + 1 when x^127 becomes x^128. */
  lemma TimesXReduces(v: bv128)
    ensures TimesX(v) == if v >> 127 == 1 then Plus(v << 1, LowTerms()) else v << 1
  {
    hide Plus, LowTerms;
    ReducedIs(Doubled(v));
  }

  function Plus(v: bv128, w: bv128): bv128 {
    v ^ w
  }

  /** x^7 + x^2 + x + 1 */
  function LowTerms(): bv128 {
    (1 << 7) | (1 << 2) | (1 << 1) | 1
  }

  lemma ReducedIs(v: bv128)
    ensures Reduced(v) == Plus(v, LowTerms())
  {
  }

  /** `v` times x^i. */
  function TimesPower(v: bv128, i: nat): bv128 {
    if i == 0 then v else TimesX(TimesPower(v, i - 1))
  }

  /** The tweak of block `i`. */
  function Tweak(t0: Block, i: nat): Block {
    if i == 0 then t0 else MulX(Tweak(t0, i - 1))
  }

  lemma {:induction false} TweakIsPower(t0: Block, i: nat)
    ensures Element(Tweak(t0, i)) == TimesPower(Element(t0), i)
  {
    hide Element, MulX, TimesX;
    if i > 0 {
      TweakIsPower(t0, i - 1);
      MulXIsTimesX(Tweak(t0, i - 1));
    }
  }

  // ---------- the mode ----------

  /** One block between two additions of its tweak. */
  function Xex(f: Cipher, b: Block, t: Block): Block {
    XorSeq(f(XorSeq(b, t)), t)
  }

  lemma XexInverse(f: Cipher, g: Cipher, b: Block, t: Block)
    requires forall x: Block :: g(f(x)) == x
    ensures Xex(g, Xex(f, b, t), t) == b
  {
    XorSeqTwice(f(XorSeq(b, t)), t);
    XorSeqTwice(b, t);
  }

  /** The cipher works on the bytes of `b` with the tweak added, and the tweak is added again to what it gives. */
  ghost predicate Masked(f: Cipher, t: Block, b: seq<bv8>, c: seq<bv8>) {
    && |b| == |c| == 16
    && exists x: Block ::
         (forall k :: 0 <= k < 16 ==> x[k] == b[k] ^ t[k]) && forall k :: 0 <= k < 16 ==> c[k] == f(x)[k] ^ t[k]
  }

  /** So it does with the tweak of block `i`: the first tweak times x^i. */
  ghost predicate MaskedAt(f: Cipher, t0: Block, i: nat, b: seq<bv8>, c: seq<bv8>) {
    exists t: Block :: Element(t) == TimesPower(Element(t0), i) && Masked(f, t, b, c)
  }

  lemma XexMasked(f: Cipher, t0: Block, i: nat, b: Block)
    ensures MaskedAt(f, t0, i, b, Xex(f, b, Tweak(t0, i)))
  {
    hide Element, TimesPower, Tweak;
    var t := Tweak(t0, i);
    TweakIsPower(t0, i);
    var x: Block := XorSeq(b, t);
    assert forall k :: 0 <= k < 16 ==> x[k] == b[k] ^ t[k];
    assert Masked(f, t, b, Xex(f, b, t));
  }

  function BlockAt(data: seq<bv8>, i: nat): Block
    requires 16 * (i + 1) <= |data|
  {
    data[16 * i..16 * i + 16]
  }

  /** The first `n` blocks, each with its own tweak. */
  function Whole(f: Cipher, t0: Block, data: seq<bv8>, n: nat): (r: seq<bv8>)
    requires 16 * n <= |data|
    ensures |r| == 16 * n
  {
    if n == 0 then [] else Whole(f, t0, data, n - 1) + Xex(f, BlockAt(data, n - 1), Tweak(t0, n - 1))
  }

  /**
    A data unit (IEEE 1619): whole blocks, and ciphertext stealing for a rest.
    Encryption uses the last two tweaks in order, decryption the other way round.
   */
  function Unit(encrypt: bool, f: Cipher, t0: Block, data: seq<bv8>): (r: seq<bv8>)
    requires |data| >= 16
    ensures |r| == |data|
  {
    var n, rest := |data| / 16, |data| % 16;
    if rest == 0 then Whole(f, t0, data, n)
    else
      var t1 := Tweak(t0, if encrypt then n - 1 else n);
      var t2 := Tweak(t0, if encrypt then n else n - 1);
      var stolen := Xex(f, BlockAt(data, n - 1), t1);
      Whole(f, t0, data, n - 1) + Xex(f, data[16 * n..] + stolen[rest..], t2) + stolen[..rest]
  }

  /** The first `n` blocks of `c` are those of `data`, each with its own tweak. */
  ghost predicate AllMasked(f: Cipher, t0: Block, data: seq<bv8>, c: seq<bv8>, n: nat) {
    && 16 * n <= |data| && 16 * n <= |c|
    && forall i :: 0 <= i < n ==> MaskedAt(f, t0, i, data[16 * i..16 * i + 16], c[16 * i..16 * i + 16])
  }

  /**
    What a data unit becomes (IEEE 1619): every block has its own tweak; the last, partial one changes places with the
    end of the block before it, which decryption gives the later of the two tweaks.
   */
  ghost predicate Tweaked(encrypt: bool, f: Cipher, t0: Block, data: seq<bv8>, c: seq<bv8>) {
    var n, rest := |data| / 16, |data| % 16;
    && |c| == |data| >= 16
    && if rest == 0 then AllMasked(f, t0, data, c, n)
       else
         && AllMasked(f, t0, data, c, n - 1)
         && exists stolen: Block ::
              && MaskedAt(f, t0, if encrypt then n - 1 else n, data[16 * (n - 1)..16 * n], stolen)
              && MaskedAt(f, t0, if encrypt then n else n - 1, data[16 * n..] + stolen[rest..], c[16 * (n - 1)..16 * n])
              && c[16 * n..] == stolen[..rest]
  }

  lemma {:induction false} WholeMasked(f: Cipher, t0: Block, data: seq<bv8>, c: seq<bv8>, n: nat)
    requires 16 * n <= |data| && 16 * n <= |c| && c[..16 * n] == Whole(f, t0, data, n)
    ensures AllMasked(f, t0, data, c, n)
  {
    hide MaskedAt, Xex, Tweak;
    if n > 0 {
      var w := Whole(f, t0, data, n - 1);
      assert c[..16 * (n - 1)] == c[..16 * n][..16 * (n - 1)] == w;
      WholeMasked(f, t0, data, c, n - 1);
      assert c[16 * (n - 1)..16 * (n - 1) + 16] == c[..16 * n][16 * (n - 1)..]
             == Xex(f, BlockAt(data, n - 1), Tweak(t0, n - 1));
      XexMasked(f, t0, n - 1, BlockAt(data, n - 1));
    }
  }

  lemma UnitTweaked(encrypt: bool, f: Cipher, t0: Block, data: seq<bv8>)
    requires |data| >= 16
    ensures Tweaked(encrypt, f, t0, data, Unit(encrypt, f, t0, data))
  {
    hide MaskedAt, Xex, Tweak, Whole, AllMasked;
    var n, rest, c := |data| / 16, |data| % 16, Unit(encrypt, f, t0, data);
    if rest == 0 {
      assert c[..16 * n] == c;
      WholeMasked(f, t0, data, c, n);
    } else {
      var i1, i2 := if encrypt then n - 1 else n, if encrypt then n else n - 1;
      var stolen := Xex(f, BlockAt(data, n - 1), Tweak(t0, i1));
      var last: Block := data[16 * n..] + stolen[rest..];
      var swapped := Xex(f, last, Tweak(t0, i2));
      assert c == Whole(f, t0, data, n - 1) + swapped + stolen[..rest];
      assert c[..16 * (n - 1)] == Whole(f, t0, data, n - 1);
      WholeMasked(f, t0, data, c, n - 1);
      XexMasked(f, t0, i1, BlockAt(data, n - 1));
      XexMasked(f, t0, i2, last);
      assert c[16 * (n - 1)..16 * n] == swapped && c[16 * n..] == stolen[..rest];
    }
  }

  lemma {:induction false} WholeInverse(f: Cipher, g: Cipher, t0: Block, data: seq<bv8>, c: seq<bv8>, n: nat)
    requires forall x: Block :: g(f(x)) == x
    requires 16 * n <= |data| && 16 * n <= |c| && c[..16 * n] == Whole(f, t0, data, n)
    ensures Whole(g, t0, c, n) == data[..16 * n]
  {
    hide Xex, Tweak;
    if n > 0 {
      var w := Whole(f, t0, data, n - 1);
      assert c[..16 * (n - 1)] == c[..16 * n][..16 * (n - 1)] == w;
      WholeInverse(f, g, t0, data, c, n - 1);
      assert BlockAt(c, n - 1) == c[..16 * n][16 * (n - 1)..] == Xex(f, BlockAt(data, n - 1), Tweak(t0, n - 1));
      XexInverse(f, g, BlockAt(data, n - 1), Tweak(t0, n - 1));
      assert data[..16 * n] == data[..16 * (n - 1)] + BlockAt(data, n - 1);
    }
  }

  /** Decryption undoes encryption for every length of at least one block, with or without a rest. */
  lemma DecryptEncrypt(e: Cipher, d: Cipher, t0: Block, data: seq<bv8>)
    requires |data| >= 16 && forall x: Block :: d(e(x)) == x
    ensures Unit(false, d, t0, Unit(true, e, t0, data)) == data
  {
    hide Xex, Tweak, Whole;
    var n, rest, c := |data| / 16, |data| % 16, Unit(true, e, t0, data);
    if rest == 0 {
      assert c[..16 * n] == c && data[..16 * n] == data;
      WholeInverse(e, d, t0, data, c, n);
    } else {
      var stolen := Xex(e, BlockAt(data, n - 1), Tweak(t0, n - 1));
      var last: Block := data[16 * n..] + stolen[rest..];
      var swapped := Xex(e, last, Tweak(t0, n));
      assert c == Whole(e, t0, data, n - 1) + swapped + stolen[..rest];
      assert c[..16 * (n - 1)] == Whole(e, t0, data, n - 1);
      WholeInverse(e, d, t0, data, c, n - 1);
      assert BlockAt(c, n - 1) == swapped && c[16 * n..] == stolen[..rest];
      XexInverse(e, d, last, Tweak(t0, n));
      XexInverse(e, d, BlockAt(data, n - 1), Tweak(t0, n - 1));
      assert last[rest..] == stolen[rest..] && last[..rest] == data[16 * n..];
      assert stolen[..rest] + stolen[rest..] == stolen;
      assert data == data[..16 * (n - 1)] + BlockAt(data, n - 1) + data[16 * n..];
    }
  }

  /** Writes a block behind what was written before. */
  method Store(output: array<bv8>, at: nat, b: seq<bv8>)
    requires at + |b| <= output.Length
    modifies output
    ensures output[..at + |b|] == old(output[..at]) + b
    ensures forall k :: at + |b| <= k < output.Length ==> output[k] == old(output[k])
  {
    ghost var before := output[..at];
    forall k | at <= k < at + |b| {
      output[k] := b[k - at];
    }
    assert output[..at] == before && output[at..at + |b|] == b;
    assert output[..at + |b|] == output[..at] + output[at..at + |b|];
  }

  /** What the loop over the whole blocks has written when it comes to block `i`. */
  function Written(encrypt: bool, f: Cipher, t0: Block, data: seq<bv8>, i: nat): (r: seq<bv8>)
    requires i <= |data| / 16
    ensures |r| == 16 * i
  {
    if i == |data| / 16 && i > 0 && !encrypt && |data| % 16 != 0 then
      Whole(f, t0, data, i - 1) + Xex(f, BlockAt(data, i - 1), Tweak(t0, i))
    else Whole(f, t0, data, i)
  }

  /** What stealing makes of the whole blocks and the rest. */
  function Swapped(f: Cipher, t: Block, written: seq<bv8>, rest: seq<bv8>): (r: seq<bv8>)
    requires |written| >= 16 && |written| % 16 == 0 && 0 < |rest| < 16
  {
    var prev := written[|written| - 16..];
    written[..|written| - 16] + Xex(f, rest + prev[|rest|..], t) + prev[..|rest|]
  }

  /** The rest of a data unit changes places with the end of the block before it. */
  lemma Stolen(encrypt: bool, f: Cipher, t0: Block, data: seq<bv8>, written: seq<bv8>)
    requires |data| >= 16 && |data| % 16 != 0 && written == Written(encrypt, f, t0, data, |data| / 16)
    ensures Unit(encrypt, f, t0, data) ==
            Swapped(f, Tweak(t0, if encrypt then |data| / 16 else |data| / 16 - 1), written, data[16 * (|data| / 16)..])
  {
    hide Xex, Tweak;
    var n := |data| / 16;
    var stolen := Xex(f, BlockAt(data, n - 1), Tweak(t0, if encrypt then n - 1 else n));
    assert written == Whole(f, t0, data, n - 1) + stolen;
    assert written[|written| - 16..] == stolen;
  }

  /** Ciphertext stealing for the last, partial block. */
  method Steal(crypt: Cipher, t: Block, input: array<bv8>, output: array<bv8>, blocks: nat, leftover: nat)
    requires input != output && output.Length == input.Length == 16 * blocks + leftover && blocks >= 1
              && 0 < leftover < 16
    modifies output
    ensures output[..] == Swapped(crypt, t, old(output[..16 * blocks]), input[16 * blocks..])
  {
    hide Xex;
    ghost var written := output[..16 * blocks];
    var prev: Block := output[16 * (blocks - 1)..16 * blocks];
    var tmp: Block := input[16 * blocks..] + prev[leftover..];
    Store(output, 16 * blocks, prev[..leftover]);
    assert output[..16 * (blocks - 1)] == written[..16 * (blocks - 1)];
    Store(output, 16 * (blocks - 1), Xex(crypt, tmp, t));
    assert output[16 * blocks..] == prev[..leftover];
    assert output[..] == output[..16 * blocks] + output[16 * blocks..];
  }

  /** Encrypts or decrypts a data unit; a bad mode or length changes nothing. */
  method CryptXts(tweakCipher: Cipher, crypt: Cipher, mode: Mode, dataUnit: Block, input: array<bv8>,
      output: array<bv8>)
    returns (ret: Status)
    requires input != output && output.Length == input.Length
    modifies output
    ensures ret == if mode.Unknown? then BadInputData
                   else if input.Length < 16 || input.Length > 0x100000 * 16 then InvalidInputLength
                   else Success
    ensures ret != Success ==> output[..] == old(output[..])
    ensures ret == Success ==> output[..] == Unit(mode.Encrypt?, crypt, tweakCipher(dataUnit), input[..])
    ensures ret == Success ==> Tweaked(mode.Encrypt?, crypt, tweakCipher(dataUnit), input[..], output[..])
  {
    hide Xex, MulX, Whole, Unit, Written, BlockAt, TimesX, Tweaked;
    var length := input.Length;
    var blocks, leftover := length / 16, length % 16;
    if mode.Unknown? {
      return BadInputData;
    }
    if length < 16 || length > 0x100000 * 16 {
      return InvalidInputLength;
    }
    var t0: Block := tweakCipher(dataUnit);
    ghost var data, enc := input[..], mode.Encrypt?;
    var tweak, prevTweak := CryptWhole(crypt, mode, t0, input, output);
    if leftover != 0 {
      Steal(crypt, if mode == Decrypt then prevTweak else tweak, input, output, blocks, leftover);
      Stolen(enc, crypt, t0, data, Written(enc, crypt, t0, data, blocks));
    } else {
      assert output[..] == output[..16 * blocks];
      NoRest(enc, crypt, t0, data);
    }
    UnitTweaked(enc, crypt, t0, data);
    return Success;
  }

  /** The whole blocks; before the last one of a unit that is deciphered with stealing, a tweak is left out. */
  method CryptWhole(crypt: Cipher, mode: Mode, t0: Block, input: array<bv8>, output: array<bv8>)
    returns (tweak: Block, prevTweak: Block)
    requires input != output && output.Length == input.Length && input.Length >= 16 && !mode.Unknown?
    modifies output
    ensures var blocks, swap := input.Length / 16, input.Length % 16 != 0 && !mode.Encrypt?;
            && tweak == Tweak(t0, if swap then blocks + 1 else blocks)
            && (swap ==> prevTweak == Tweak(t0, blocks - 1))
            && output[..16 * blocks] == Written(mode.Encrypt?, crypt, t0, input[..], blocks)
  {
    hide Xex, MulX, Whole, Written, BlockAt, TimesX;
    var blocks, leftover := input.Length / 16, input.Length % 16;
    ghost var data, enc := input[..], mode.Encrypt?;
    ghost var swap := leftover != 0 && !enc;
    tweak, prevTweak := t0, t0;
    NothingWritten(enc, crypt, t0, data);
    var i := 0;
    while i < blocks
      invariant 0 <= i <= blocks && input[..] == data
      invariant tweak == Tweak(t0, if i == blocks && swap then i + 1 else i)
      invariant i == blocks && swap ==> prevTweak == Tweak(t0, blocks - 1)
      invariant output[..16 * i] == Written(enc, crypt, t0, data, i)
    {
      if leftover != 0 && mode == Decrypt && i == blocks - 1 {
        prevTweak := tweak;
        tweak := MulX(tweak);
      }
      WriteNext(enc, crypt, t0, data, i);
      CryptBlock(crypt, tweak, input, output, i);
      tweak := MulX(tweak);
      i := i + 1;
    }
  }

  /** One block, with its tweak before and after. */
  method CryptBlock(crypt: Cipher, tweak: Block, input: array<bv8>, output: array<bv8>, i: nat)
    requires input != output && output.Length == input.Length && i < input.Length / 16
    modifies output
    ensures output[..16 * (i + 1)] == old(output[..16 * i]) + Xex(crypt, BlockAt(input[..], i), tweak)
  {
    hide Xex;
    var b: Block := input[16 * i..16 * i + 16];
    assert b == input[..][16 * i..16 * i + 16];
    Store(output, 16 * i, Xex(crypt, b, tweak));
  }

  lemma NothingWritten(encrypt: bool, f: Cipher, t0: Block, data: seq<bv8>)
    ensures Written(encrypt, f, t0, data, 0) == []
  {
  }

  lemma WriteNext(encrypt: bool, f: Cipher, t0: Block, data: seq<bv8>, i: nat)
    requires i < |data| / 16
    ensures Written(encrypt, f, t0, data, i + 1) ==
            Written(encrypt, f, t0, data, i) +
            Xex(f, BlockAt(data, i), Tweak(t0, if !encrypt && |data| % 16 != 0 && i + 1 == |data| / 16 then i + 1
                else i))
  {
  }

  lemma NoRest(encrypt: bool, f: Cipher, t0: Block, data: seq<bv8>)
    requires |data| >= 16 && |data| % 16 == 0
    ensures Unit(encrypt, f, t0, data) == Written(encrypt, f, t0, data, |data| / 16)
  {
  }
}
