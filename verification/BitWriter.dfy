/** The compressor's 64-bit bit buffer (send_bits, bi_flush and bi_windup in zlib's trees.c). */
module BitWriter {
  import opened Arithmetic
  import opened Bits

  const WORD: nat := 64

  /** Sending `val` in `len` bits above the `filled` bits of `buf`. */
  lemma WholeWord(buf: nat, filled: nat, val: nat, len: nat, word: nat, rest: nat)
    requires filled < WORD <= filled + len && len < WORD && buf < Pow2(filled) && val < Pow2(len)
    requires val * Pow2(filled) >= 0
    requires word == (buf + val * Pow2(filled)) % Pow2(WORD) && rest == val / Pow2(WORD - filled)
    ensures ToBits(word, WORD) + ToBits(rest, filled + len - WORD) == ToBits(buf, filled) + ToBits(val, len)
    ensures rest < Pow2(filled + len - WORD)
  {
    hide Pow2, ToBits;
    var k := WORD - filled;
    DivMod(val, Pow2(k));
    var lo := val % Pow2(k);
    ToBitsAbove(lo, rest, k, len - k);
    assert k + (len - k) == len;
    ToBitsAbove(buf, lo, filled, k);
    MulAssoc(rest, Pow2(k), Pow2(filled));
    Pow2Add(k, filled);
    MulDistribute(rest * Pow2(k), lo, Pow2(filled));
    WordFits(buf, lo, filled, k);
    DivModUnique(buf + val * Pow2(filled), Pow2(WORD), rest, buf + lo * Pow2(filled));
    Pow2Add(len - k, k);
    DivRange(val, Pow2(k), Pow2(len - k));
  }

  /** The bits fit into the word. */
  lemma PartWord(buf: nat, filled: nat, val: nat, len: nat, word: nat)
    requires filled + len < WORD && buf < Pow2(filled) && val < Pow2(len)
    requires val * Pow2(filled) >= 0
    requires word == (buf + val * Pow2(filled)) % Pow2(WORD)
    ensures ToBits(word, filled + len) == ToBits(buf, filled) + ToBits(val, len) && word < Pow2(filled + len)
  {
    hide Pow2, ToBits;
    ToBitsAbove(buf, val, filled, len);
    WordFits(buf, val, filled, len);
    Pow2Monotone(filled + len, WORD);
    DivModUnique(buf + val * Pow2(filled), Pow2(WORD), 0, buf + val * Pow2(filled));
    assert len + filled == filled + len;
  }

  lemma WordFits(buf: nat, lo: nat, filled: nat, k: nat)
    requires buf < Pow2(filled) && lo < Pow2(k)
    ensures 0 <= buf + lo * Pow2(filled) < Pow2(k + filled)
  {
    Pow2Add(k, filled);
    MulPositive(lo, Pow2(filled));
    MulMonotone(Pow2(filled), lo + 1, Pow2(k));
    MulDistribute(lo, 1, Pow2(filled));
  }

  /** The bytes of a word, lowest first. */
  function WordBytes(word: nat, n: nat): (b: seq<Byte>)
    ensures |b| == n
  {
    if n == 0 then [] else [word % 256] + WordBytes(word / 256, n - 1)
  }

  lemma Pow2Eight()
    ensures Pow2(8) == 256
  {
    assert Pow2(4) == 16;
    Pow2Add(4, 4);
  }

  lemma {:induction false} BytesToBitsConcat(a: seq<nat>, b: seq<nat>)
    ensures BytesToBits(a + b) == BytesToBits(a) + BytesToBits(b)
  {
    if b == [] {
      assert a + b == a;
    } else {
      assert (a + b)[..|a + b| - 1] == a + b[..|b| - 1];
      BytesToBitsConcat(a, b[..|b| - 1]);
      assert BytesToBits(a) + BytesToBits(b[..|b| - 1]) + ToBits(b[|b| - 1], 8) ==
             BytesToBits(a) + (BytesToBits(b[..|b| - 1]) + ToBits(b[|b| - 1], 8));
    }
  }

  /** Storing a word byte by byte stores its bits in order. */
  lemma {:induction false} WordBytesBits(word: nat, n: nat)
    ensures BytesToBits(WordBytes(word, n)) == ToBits(word, 8 * n)
  {
    hide ToBits, Pow2;
    if n == 0 {
      assert |ToBits(word, 0)| == 0;
    } else {
      WordBytesBits(word / 256, n - 1);
      var first: seq<nat> := [word % 256];
      BytesToBitsConcat(first, WordBytes(word / 256, n - 1));
      BytesToBitsAppend([], word % 256);
      assert [] + first == first;
      Pow2Eight();
      ToBitsAbove(word % 256, word / 256, 8, 8 * (n - 1));
      assert 8 + 8 * (n - 1) == 8 * n;
    }
  }

  class Writer {
    const pendingBuf: array<Byte>
    var pending: nat
    var biBuf: nat
    var biValid: nat

    predicate Valid()
      reads this
    {
      pending <= pendingBuf.Length && biValid < WORD && biBuf < Pow2(biValid)
    }

    predicate Apart(a: array<nat>) {
      (a as object) != (pendingBuf as object)
    }

    /** All bits sent so far. */
    ghost function Sent(): seq<bool>
      reads this, pendingBuf
      requires Valid()
    {
      BytesToBits(pendingBuf[..pending]) + ToBits(biBuf, biValid)
    }

    constructor (size: nat)
      ensures Valid() && Sent() == [] && pendingBuf.Length == size && fresh(pendingBuf) && pending == 0
    {
      pendingBuf := new Byte[size];
      pending, biBuf, biValid := 0, 0, 0;
    }

    /** Stores the `n` low bytes of `word` in the output, lowest byte first. */
    method PutBytes(word: nat, n: nat)
      requires pending + n <= pendingBuf.Length
      modifies `pending, pendingBuf
      ensures pending == old(pending) + n
      ensures pendingBuf[..pending] == old(pendingBuf[..pending]) + WordBytes(word, n)
    {
      var k, w := 0, word;
      ghost var before := pendingBuf[..pending];
      assert WordBytes(w, 0) == [];
      while k < n
        invariant 0 <= k <= n && pending == old(pending) + k
        invariant pendingBuf[..pending] + WordBytes(w, n - k) == before + WordBytes(word, n)
      {
        ghost var b := pendingBuf[..pending];
        pendingBuf[pending] := w % 256;
        pending := pending + 1;
        assert pendingBuf[..pending] == b + [w % 256];
        assert b + WordBytes(w, n - k) == b + [w % 256] + WordBytes(w / 256, n - k - 1);
        w := w / 256;
        k := k + 1;
      }
    }

    /** Sends the `len` bits of `val`. */
    method SendBits(val: nat, len: nat)
      requires Valid() && 0 < len < WORD && val < Pow2(len)
      requires biValid + len >= WORD ==> pending + 8 <= pendingBuf.Length
      modifies `pending, `biBuf, `biValid, pendingBuf
      ensures Valid() && Sent() == old(Sent()) + ToBits(val, len)
      ensures 8 * pending + biValid == 8 * old(pending) + old(biValid) + len
    {
      hide Pow2, ToBits, Xor, BytesToBits, WordBytes;
      ghost var b: seq<nat>, buf, filled := pendingBuf[..pending], biBuf, biValid;
      MulPositive(val, Pow2(biValid));
      XorIsSum(biBuf, val, biValid, WORD);
      biBuf := Xor(biBuf, val * Pow2(biValid), WORD);
      biValid := biValid + len;
      if biValid >= WORD {
        ghost var word := biBuf;
        PutBytes(biBuf, 8);
        biValid := biValid - WORD;
        biBuf := val / Pow2(len - biValid);
        WholeWord(buf, filled, val, len, word, biBuf);
        WordBytesBits(word, 8);
        BytesToBitsConcat(b, WordBytes(word, 8));
        Regroup(BytesToBits(b), ToBits(word, WORD), ToBits(biBuf, biValid), ToBits(buf, filled), ToBits(val, len));
      } else {
        PartWord(buf, filled, val, len, biBuf);
        assert pendingBuf[..pending] == b;
        assert BytesToBits(b) + (ToBits(buf, filled) + ToBits(val, len)) == BytesToBits(b) + ToBits(buf, filled)
               + ToBits(val, len);
      }
    }

    /** Writes out whole bytes, keeping at most 7 bits. */
    method BiFlush()
      requires Valid() && pending + biValid / 8 <= pendingBuf.Length
      modifies `pending, `biBuf, `biValid, pendingBuf
      ensures Valid() && Sent() == old(Sent()) && biValid < 8
    {
      hide Pow2, ToBits, BytesToBits;
      while biValid >= 16
        invariant Valid() && Sent() == old(Sent()) && 8 * pending + biValid == 8 * old(pending) + old(biValid)
        decreases biValid
      {
        FlushBytes(2);
      }
      if biValid >= 8 {
        FlushBytes(1);
      }
    }

    /** Moves the `n` low bytes of the bit buffer to the output (put_short and put_byte). */
    method FlushBytes(n: nat)
      requires Valid() && 8 * n <= biValid && pending + n <= pendingBuf.Length
      modifies `pending, `biBuf, `biValid, pendingBuf
      ensures Valid() && Sent() == old(Sent()) && biValid == old(biValid) - 8 * n && pending == old(pending) + n
    {
      hide Pow2, ToBits, BytesToBits, WordBytes;
      ghost var b: seq<nat>, buf, filled := pendingBuf[..pending], biBuf, biValid;
      PutBytes(biBuf, n);
      biBuf := biBuf / Pow2(8 * n);
      biValid := biValid - 8 * n;
      DivMod(buf, Pow2(8 * n));
      ToBitsAbove(buf % Pow2(8 * n), biBuf, 8 * n, biValid);
      assert 8 * n + biValid == filled;
      ToBitsLow(buf, 8 * n);
      WordBytesBits(buf, n);
      BytesToBitsConcat(b, WordBytes(buf, n));
      Pow2Add(biValid, 8 * n);
      DivRange(buf, Pow2(8 * n), Pow2(biValid));
      Regroup(BytesToBits(b), ToBits(buf, 8 * n), ToBits(biBuf, biValid), ToBits(buf, filled), []);
    }

    /** Writes out all bits, filling the last byte with zeros. */
    method BiWindup()
      requires Valid() && pending + (biValid + 7) / 8 <= pendingBuf.Length
      modifies `pending, `biBuf, `biValid, pendingBuf
      ensures Valid() && biValid == 0 && biBuf == 0
      ensures |old(Sent())| <= |Sent()| < |old(Sent())| + 8
      ensures Sent() == old(Sent()) + seq(|Sent()| - |old(Sent())|, _ => false)
    {
      hide Pow2, ToBits, BytesToBits;
      while biValid >= 16
        invariant Valid() && Sent() == old(Sent()) && 8 * pending + biValid == 8 * old(pending) + old(biValid)
        decreases biValid
      {
        FlushBytes(2);
      }
      if biValid > 8 {
        PadAndFlush(2);
      } else if biValid > 0 {
        PadAndFlush(1);
      }
      biBuf := 0;
      biValid := 0;
    }

    /** Moves the `n` low bytes of the bit buffer to the output, zeros included. */
    method PadAndFlush(n: nat)
      requires Valid() && 8 * (n - 1) < biValid <= 8 * n && pending + n <= pendingBuf.Length
      modifies `pending, `biBuf, `biValid, pendingBuf
      ensures Valid() && biValid == 0 && biBuf == 0
      ensures |old(Sent())| <= |Sent()| < |old(Sent())| + 8
      ensures Sent() == old(Sent()) + seq(|Sent()| - |old(Sent())|, _ => false)
    {
      hide Pow2, ToBits, BytesToBits, WordBytes;
      ghost var b: seq<nat>, buf, filled, sent := pendingBuf[..pending], biBuf, biValid, Sent();
      PutBytes(biBuf, n);
      biBuf := 0;
      biValid := 0;
      NoBits();
      WordBytesBits(buf, n);
      BytesToBitsConcat(b, WordBytes(buf, n));
      ToBitsAbove(buf, 0, filled, 8 * n - filled);
      ZeroBits(8 * n - filled);
      assert buf + 0 * Pow2(filled) == buf;
      Regroup(BytesToBits(b), ToBits(buf, 8 * n), [], ToBits(buf, filled), seq(8 * n - filled, _ => false));
      assert Sent() == BytesToBits(b) + (ToBits(buf, 8 * n) + ToBits(0, 0));
    }
  }

  lemma NoBits()
    ensures Pow2(0) == 1
  {
  }

  lemma Regroup(b: seq<bool>, w: seq<bool>, r: seq<bool>, f: seq<bool>, v: seq<bool>)
    requires w + r == f + v
    ensures b + w + r == b + f + v
  {
    assert b + w + r == b + (w + r);
    assert b + f + v == b + (f + v);
  }
}
