/** ARIA byte by byte, as section 2 of RFC 5794 lays it down; the word form of mbedtls's aria.c is the same cipher. */
module AriaBytes {
  import opened Aria
  import opened AriaBoxes

  // ---------- the cipher on sixteen bytes ----------

  datatype Octet = Octet(v: bv8)

  /** A block of sixteen bytes. */
  datatype Octets = Octets(x0: Octet, x1: Octet, x2: Octet, x3: Octet, x4: Octet, x5: Octet, x6: Octet, x7: Octet,
                           x8: Octet, x9: Octet, x10: Octet, x11: Octet, x12: Octet, x13: Octet, x14: Octet,
                           x15: Octet)

  function Plus(x: Octet, y: Octet): Octet {
    Octet(x.v ^ y.v)
  }

  function AddKey(x: Octets, k: Octets): Octets {
    Octets(Plus(x.x0, k.x0), Plus(x.x1, k.x1), Plus(x.x2, k.x2), Plus(x.x3, k.x3),
           Plus(x.x4, k.x4), Plus(x.x5, k.x5), Plus(x.x6, k.x6), Plus(x.x7, k.x7),
           Plus(x.x8, k.x8), Plus(x.x9, k.x9), Plus(x.x10, k.x10), Plus(x.x11, k.x11),
           Plus(x.x12, k.x12), Plus(x.x13, k.x13), Plus(x.x14, k.x14), Plus(x.x15, k.x15))
  }

  datatype Box = S1 | S2 | Inverse1 | Inverse2

  /** A byte through one of the boxes. */
  function Through(b: Box, x: Octet): Octet {
    match b
    case S1 => Octet(Sb1(x.v))
    case S2 => Octet(Sb2(x.v))
    case Inverse1 => Octet(Is1(x.v))
    case Inverse2 => Octet(Is2(x.v))
  }

  /** The substitution layers of odd and of even rounds, counting from 1 (section 2.4.2 of RFC 5794). */
  function Substitute(odd: bool, x: Octets): Octets {
    if odd then
      Octets(Through(S1, x.x0), Through(S2, x.x1), Through(Inverse1, x.x2), Through(Inverse2, x.x3),
             Through(S1, x.x4), Through(S2, x.x5), Through(Inverse1, x.x6), Through(Inverse2, x.x7),
             Through(S1, x.x8), Through(S2, x.x9), Through(Inverse1, x.x10), Through(Inverse2, x.x11),
             Through(S1, x.x12), Through(S2, x.x13), Through(Inverse1, x.x14), Through(Inverse2, x.x15))
    else
      Octets(Through(Inverse1, x.x0), Through(Inverse2, x.x1), Through(S1, x.x2), Through(S2, x.x3),
             Through(Inverse1, x.x4), Through(Inverse2, x.x5), Through(S1, x.x6), Through(S2, x.x7),
             Through(Inverse1, x.x8), Through(Inverse2, x.x9), Through(S1, x.x10), Through(S2, x.x11),
             Through(Inverse1, x.x12), Through(Inverse2, x.x13), Through(S1, x.x14), Through(S2, x.x15))
  }

  function Sum(a: Octet, b: Octet, c: Octet, d: Octet, e: Octet, f: Octet, g: Octet): Octet {
    Plus(Plus(Plus(Plus(Plus(Plus(a, b), c), d), e), f), g)
  }

  /** The diffusion layer (section 2.4.3 of RFC 5794). */
  function Diffuse(x: Octets): Octets {
    Octets(Sum(x.x3, x.x4, x.x6, x.x8, x.x9, x.x13, x.x14),
           Sum(x.x2, x.x5, x.x7, x.x8, x.x9, x.x12, x.x15),
           Sum(x.x1, x.x4, x.x6, x.x10, x.x11, x.x12, x.x15),
           Sum(x.x0, x.x5, x.x7, x.x10, x.x11, x.x13, x.x14),
           Sum(x.x0, x.x2, x.x5, x.x8, x.x11, x.x14, x.x15),
           Sum(x.x1, x.x3, x.x4, x.x9, x.x10, x.x14, x.x15),
           Sum(x.x0, x.x2, x.x7, x.x9, x.x10, x.x12, x.x13),
           Sum(x.x1, x.x3, x.x6, x.x8, x.x11, x.x12, x.x13),
           Sum(x.x0, x.x1, x.x4, x.x7, x.x10, x.x13, x.x15),
           Sum(x.x0, x.x1, x.x5, x.x6, x.x11, x.x12, x.x14),
           Sum(x.x2, x.x3, x.x5, x.x6, x.x8, x.x13, x.x15),
           Sum(x.x2, x.x3, x.x4, x.x7, x.x9, x.x12, x.x14),
           Sum(x.x1, x.x2, x.x6, x.x7, x.x9, x.x11, x.x12),
           Sum(x.x0, x.x3, x.x6, x.x7, x.x8, x.x10, x.x13),
           Sum(x.x0, x.x3, x.x4, x.x5, x.x9, x.x11, x.x14),
           Sum(x.x1, x.x2, x.x4, x.x5, x.x8, x.x10, x.x15))
  }

  /** The state after `n` whole rounds. */
  function Rounds(rk: seq<Octets>, block: Octets, n: nat): Octets
    requires n <= |rk|
  {
    if n == 0 then block else Diffuse(Substitute(n % 2 == 1, AddKey(Rounds(rk, block, n - 1), rk[n - 1])))
  }

  /** The cipher with `nr` rounds: the last one has a second key instead of the diffusion layer. */
  function Cipher(rk: seq<Octets>, nr: nat, block: Octets): Octets
    requires 1 <= nr < |rk|
  {
    AddKey(Substitute(nr % 2 == 1, AddKey(Rounds(rk, block, nr - 1), rk[nr - 1])), rk[nr])
  }

  // ---------- the words' bytes ----------

  function O0(x: Word): Octet {
    Octet(Byte0(x))
  }

  function O1(x: Word): Octet {
    Octet(Byte1(x))
  }

  function O2(x: Word): Octet {
    Octet(Byte2(x))
  }

  function O3(x: Word): Octet {
    Octet(Byte3(x))
  }

  /** The four words of a state, lowest byte first. */
  function OctetsOf(s: State): Octets {
    Octets(O0(s.a), O1(s.a), O2(s.a), O3(s.a), O0(s.b), O1(s.b), O2(s.b), O3(s.b),
           O0(s.c), O1(s.c), O2(s.c), O3(s.c), O0(s.d), O1(s.d), O2(s.d), O3(s.d))
  }

  function Keys(rk: seq<State>): (r: seq<Octets>)
    ensures |r| == |rk|
  {
    seq(|rk|, i requires 0 <= i < |rk| => OctetsOf(rk[i]))
  }

  lemma Plus0(x: Word, y: Word)
    ensures O0(X(x, y)) == Plus(O0(x), O0(y))
  {
  }

  lemma Plus1(x: Word, y: Word)
    ensures O1(X(x, y)) == Plus(O1(x), O1(y))
  {
  }

  lemma Plus2(x: Word, y: Word)
    ensures O2(X(x, y)) == Plus(O2(x), O2(y))
  {
  }

  lemma Plus3(x: Word, y: Word)
    ensures O3(X(x, y)) == Plus(O3(x), O3(y))
  {
  }

  lemma BytesPlus(x: Word, y: Word)
    ensures O0(X(x, y)) == Plus(O0(x), O0(y)) && O1(X(x, y)) == Plus(O1(x), O1(y))
    ensures O2(X(x, y)) == Plus(O2(x), O2(y)) && O3(X(x, y)) == Plus(O3(x), O3(y))
  {
    hide *;
    Plus0(x, y);
    Plus1(x, y);
    Plus2(x, y);
    Plus3(x, y);
  }

  lemma KeyAdded(s: State, k: State)
    ensures OctetsOf(Xor(s, k)) == AddKey(OctetsOf(s), OctetsOf(k))
  {
    hide X, O0, O1, O2, O3, Plus;
    BytesPlus(s.a, k.a);
    BytesPlus(s.b, k.b);
    BytesPlus(s.c, k.c);
    BytesPlus(s.d, k.d);
  }

  lemma SubBytes(x: Word)
    ensures O0(Sub1(x)) == Through(S1, O0(x)) && O1(Sub1(x)) == Through(S2, O1(x))
    ensures O2(Sub1(x)) == Through(Inverse1, O2(x)) && O3(Sub1(x)) == Through(Inverse2, O3(x))
    ensures O0(Sub2(x)) == Through(Inverse1, O0(x)) && O1(Sub2(x)) == Through(Inverse2, O1(x))
    ensures O2(Sub2(x)) == Through(S1, O2(x)) && O3(Sub2(x)) == Through(S2, O3(x))
  {
    hide Bytes, Byte0, Byte1, Byte2, Byte3, Sb1, Sb2, Is1, Is2;
    WordOfBytes(Sb1(Byte0(x)), Sb2(Byte1(x)), Is1(Byte2(x)), Is2(Byte3(x)));
    WordOfBytes(Is1(Byte0(x)), Is2(Byte1(x)), Sb1(Byte2(x)), Sb2(Byte3(x)));
  }

  lemma Substituted(first: bool, s: State)
    ensures OctetsOf(SL(first, s)) == Substitute(first, OctetsOf(s))
  {
    hide Sub1, Sub2, O0, O1, O2, O3, Through;
    SubBytes(s.a);
    SubBytes(s.b);
    SubBytes(s.c);
    SubBytes(s.d);
  }

  lemma Permuted10(x: Word)
    ensures O0(P1(x)) == O1(x)
  {
  }

  lemma Permuted11(x: Word)
    ensures O1(P1(x)) == O0(x)
  {
  }

  lemma Permuted12(x: Word)
    ensures O2(P1(x)) == O3(x)
  {
  }

  lemma Permuted13(x: Word)
    ensures O3(P1(x)) == O2(x)
  {
  }

  lemma Permuted20(x: Word)
    ensures O0(P2(x)) == O2(x)
  {
  }

  lemma Permuted21(x: Word)
    ensures O1(P2(x)) == O3(x)
  {
  }

  lemma Permuted22(x: Word)
    ensures O2(P2(x)) == O0(x)
  {
  }

  lemma Permuted23(x: Word)
    ensures O3(P2(x)) == O1(x)
  {
  }

  /** The three permutations of a word's bytes. */
  lemma PermutedBytes(x: Word)
    ensures O0(P1(x)) == O1(x) && O1(P1(x)) == O0(x) && O2(P1(x)) == O3(x) && O3(P1(x)) == O2(x)
    ensures O0(P2(x)) == O2(x) && O1(P2(x)) == O3(x) && O2(P2(x)) == O0(x) && O3(P2(x)) == O1(x)
    ensures O0(P3(x)) == O3(x) && O1(P3(x)) == O2(x) && O2(P3(x)) == O1(x) && O3(P3(x)) == O0(x)
  {
    hide P1, P2, O0, O1, O2, O3;
    Permuted10(x);
    Permuted11(x);
    Permuted12(x);
    Permuted13(x);
    Permuted20(x);
    Permuted21(x);
    Permuted22(x);
    Permuted23(x);
    Permuted10(P2(x));
    Permuted11(P2(x));
    Permuted12(P2(x));
    Permuted13(P2(x));
  }

  lemma ZeroBytes()
    ensures O0(ZERO) == Octet(0) && O1(ZERO) == Octet(0) && O2(ZERO) == Octet(0) && O3(ZERO) == Octet(0)
  {
  }

  function Gate(c: bool, b: Octet): Octet {
    if c then b else Octet(0)
  }

  lemma IfBytes(c: bool, x: Word)
    ensures O0(If(c, x)) == Gate(c, O0(x)) && O1(If(c, x)) == Gate(c, O1(x))
    ensures O2(If(c, x)) == Gate(c, O2(x)) && O3(If(c, x)) == Gate(c, O3(x))
  {
    hide O0, O1, O2, O3;
    ZeroBytes();
  }

  /** What a mask adds up where the word and its three permutations have the bytes `o`, `p`, `q` and `r`. */
  function Mix(m: Mask, o: Octet, p: Octet, q: Octet, r: Octet): Octet {
    Plus(Plus(Gate(m.m0, o), Gate(m.m1, p)), Plus(Gate(m.m2, q), Gate(m.m3, r)))
  }

  lemma SelectedBytes(m: Mask, x: Word)
    ensures O0(Select(m, x)) == Mix(m, O0(x), O1(x), O2(x), O3(x))
    ensures O1(Select(m, x)) == Mix(m, O1(x), O0(x), O3(x), O2(x))
    ensures O2(Select(m, x)) == Mix(m, O2(x), O3(x), O0(x), O1(x))
    ensures O3(Select(m, x)) == Mix(m, O3(x), O2(x), O1(x), O0(x))
  {
    hide X, P1, P2, P3, If, Gate, O0, O1, O2, O3, Plus;
    PermutedBytes(x);
    IfBytes(m.m0, x);
    IfBytes(m.m1, P1(x));
    IfBytes(m.m2, P2(x));
    IfBytes(m.m3, P3(x));
    BytesPlus(If(m.m0, x), If(m.m1, P1(x)));
    BytesPlus(If(m.m2, P2(x)), If(m.m3, P3(x)));
    BytesPlus(X(If(m.m0, x), If(m.m1, P1(x))), X(If(m.m2, P2(x)), If(m.m3, P3(x))));
  }

  /** What a row of the matrix adds up for one byte of the word. */
  function Row0(m: Row, x: Octets): Octet {
    Plus(Plus(Mix(m.a, x.x0, x.x1, x.x2, x.x3), Mix(m.b, x.x4, x.x5, x.x6, x.x7)),
         Plus(Mix(m.c, x.x8, x.x9, x.x10, x.x11), Mix(m.d, x.x12, x.x13, x.x14, x.x15)))
  }

  function Row1(m: Row, x: Octets): Octet {
    Plus(Plus(Mix(m.a, x.x1, x.x0, x.x3, x.x2), Mix(m.b, x.x5, x.x4, x.x7, x.x6)),
         Plus(Mix(m.c, x.x9, x.x8, x.x11, x.x10), Mix(m.d, x.x13, x.x12, x.x15, x.x14)))
  }

  function Row2(m: Row, x: Octets): Octet {
    Plus(Plus(Mix(m.a, x.x2, x.x3, x.x0, x.x1), Mix(m.b, x.x6, x.x7, x.x4, x.x5)),
         Plus(Mix(m.c, x.x10, x.x11, x.x8, x.x9), Mix(m.d, x.x14, x.x15, x.x12, x.x13)))
  }

  function Row3(m: Row, x: Octets): Octet {
    Plus(Plus(Mix(m.a, x.x3, x.x2, x.x1, x.x0), Mix(m.b, x.x7, x.x6, x.x5, x.x4)),
         Plus(Mix(m.c, x.x11, x.x10, x.x9, x.x8), Mix(m.d, x.x15, x.x14, x.x13, x.x12)))
  }

  lemma RowBytes(m: Row, s: State)
    ensures O0(m.Of(s)) == Row0(m, OctetsOf(s)) && O1(m.Of(s)) == Row1(m, OctetsOf(s))
    ensures O2(m.Of(s)) == Row2(m, OctetsOf(s)) && O3(m.Of(s)) == Row3(m, OctetsOf(s))
  {
    hide X, Select, Mix, O0, O1, O2, O3, Plus;
    SelectedBytes(m.a, s.a);
    SelectedBytes(m.b, s.b);
    SelectedBytes(m.c, s.c);
    SelectedBytes(m.d, s.d);
    BytesPlus(Select(m.a, s.a), Select(m.b, s.b));
    BytesPlus(Select(m.c, s.c), Select(m.d, s.d));
    BytesPlus(X(Select(m.a, s.a), Select(m.b, s.b)), X(Select(m.c, s.c), Select(m.d, s.d)));
  }

  lemma Neutral(x: Octet)
    ensures Plus(x, Octet(0)) == x && Plus(Octet(0), x) == x
  {
  }

  lemma Commute(x: Octet, y: Octet)
    ensures Plus(x, y) == Plus(y, x)
  {
  }

  lemma Associate(x: Octet, y: Octet, z: Octet)
    ensures Plus(Plus(x, y), z) == Plus(x, Plus(y, z))
  {
  }

  /** The ways in which a row adds up one byte of one word and two bytes of each of the others. */
  lemma RegroupA(a: Octet, b: Octet, c: Octet, d: Octet, e: Octet, f: Octet, g: Octet)
    ensures Plus(Plus(a, Plus(b, c)), Plus(Plus(d, e), Plus(f, g))) == Sum(a, b, c, d, e, f, g)
  {
    hide Plus;
    Associate(a, b, c);
    Associate(Plus(Plus(a, b), c), Plus(d, e), Plus(f, g));
    Associate(Plus(Plus(a, b), c), d, e);
    Associate(Plus(Plus(Plus(Plus(a, b), c), d), e), f, g);
  }

  lemma RegroupB(a: Octet, b: Octet, c: Octet, d: Octet, e: Octet, f: Octet, g: Octet)
    ensures Plus(Plus(Plus(a, b), c), Plus(Plus(d, e), Plus(f, g))) == Sum(a, b, c, d, e, f, g)
  {
    hide Plus;
    Associate(Plus(Plus(a, b), c), Plus(d, e), Plus(f, g));
    Associate(Plus(Plus(a, b), c), d, e);
    Associate(Plus(Plus(Plus(Plus(a, b), c), d), e), f, g);
  }

  lemma RegroupC(a: Octet, b: Octet, c: Octet, d: Octet, e: Octet, f: Octet, g: Octet)
    ensures Plus(Plus(Plus(a, b), Plus(c, d)), Plus(e, Plus(f, g))) == Sum(a, b, c, d, e, f, g)
  {
    hide Plus;
    Associate(Plus(a, b), c, d);
    Associate(Plus(Plus(Plus(a, b), c), d), e, Plus(f, g));
    Associate(Plus(Plus(Plus(Plus(a, b), c), d), e), f, g);
  }

  lemma RegroupD(a: Octet, b: Octet, c: Octet, d: Octet, e: Octet, f: Octet, g: Octet)
    ensures Plus(Plus(Plus(a, b), Plus(c, d)), Plus(Plus(e, f), g)) == Sum(a, b, c, d, e, f, g)
  {
    hide Plus;
    Associate(Plus(a, b), c, d);
    Associate(Plus(Plus(Plus(a, b), c), d), Plus(e, f), g);
    Associate(Plus(Plus(Plus(a, b), c), d), e, f);
  }

  lemma RowA0(x: Octets)
    ensures Row0(MA, x) == Sum(x.x3, x.x4, x.x6, x.x8, x.x9, x.x13, x.x14)
  {
    hide Plus;
    Neutral(x.x3);
    Neutral(x.x4);
    Neutral(x.x6);
    Neutral(x.x8);
    Neutral(x.x9);
    Neutral(x.x13);
    Neutral(x.x14);
    Neutral(Octet(0));
    Neutral(Plus(x.x8, x.x9));
    RegroupA(x.x3, x.x4, x.x6, x.x8, x.x9, x.x13, x.x14);
  }

  lemma RowA1(x: Octets)
    ensures Row1(MA, x) == Sum(x.x2, x.x5, x.x7, x.x8, x.x9, x.x12, x.x15)
  {
    hide Plus;
    Neutral(x.x2);
    Neutral(x.x5);
    Neutral(x.x7);
    Neutral(x.x8);
    Neutral(x.x9);
    Neutral(x.x12);
    Neutral(x.x15);
    Neutral(Octet(0));
    Neutral(Plus(x.x9, x.x8));
    Commute(x.x9, x.x8);
    RegroupA(x.x2, x.x5, x.x7, x.x8, x.x9, x.x12, x.x15);
  }

  lemma RowA2(x: Octets)
    ensures Row2(MA, x) == Sum(x.x1, x.x4, x.x6, x.x10, x.x11, x.x12, x.x15)
  {
    hide Plus;
    Neutral(x.x1);
    Neutral(x.x4);
    Neutral(x.x6);
    Neutral(x.x10);
    Neutral(x.x11);
    Neutral(x.x12);
    Neutral(x.x15);
    Neutral(Octet(0));
    Neutral(Plus(x.x10, x.x11));
    Commute(x.x6, x.x4);
    Commute(x.x15, x.x12);
    RegroupA(x.x1, x.x4, x.x6, x.x10, x.x11, x.x12, x.x15);
  }

  lemma RowA3(x: Octets)
    ensures Row3(MA, x) == Sum(x.x0, x.x5, x.x7, x.x10, x.x11, x.x13, x.x14)
  {
    hide Plus;
    Neutral(x.x0);
    Neutral(x.x5);
    Neutral(x.x7);
    Neutral(x.x10);
    Neutral(x.x11);
    Neutral(x.x13);
    Neutral(x.x14);
    Neutral(Octet(0));
    Neutral(Plus(x.x11, x.x10));
    Commute(x.x7, x.x5);
    Commute(x.x11, x.x10);
    Commute(x.x14, x.x13);
    RegroupA(x.x0, x.x5, x.x7, x.x10, x.x11, x.x13, x.x14);
  }

  lemma RowB0(x: Octets)
    ensures Row0(MB, x) == Sum(x.x0, x.x2, x.x5, x.x8, x.x11, x.x14, x.x15)
  {
    hide Plus;
    Neutral(x.x0);
    Neutral(x.x2);
    Neutral(x.x5);
    Neutral(x.x8);
    Neutral(x.x11);
    Neutral(x.x14);
    Neutral(x.x15);
    Neutral(Octet(0));
    Neutral(Plus(x.x14, x.x15));
    RegroupB(x.x0, x.x2, x.x5, x.x8, x.x11, x.x14, x.x15);
  }

  lemma RowB1(x: Octets)
    ensures Row1(MB, x) == Sum(x.x1, x.x3, x.x4, x.x9, x.x10, x.x14, x.x15)
  {
    hide Plus;
    Neutral(x.x1);
    Neutral(x.x3);
    Neutral(x.x4);
    Neutral(x.x9);
    Neutral(x.x10);
    Neutral(x.x14);
    Neutral(x.x15);
    Neutral(Octet(0));
    Neutral(Plus(x.x15, x.x14));
    Commute(x.x15, x.x14);
    RegroupB(x.x1, x.x3, x.x4, x.x9, x.x10, x.x14, x.x15);
  }

  lemma RowB2(x: Octets)
    ensures Row2(MB, x) == Sum(x.x0, x.x2, x.x7, x.x9, x.x10, x.x12, x.x13)
  {
    hide Plus;
    Neutral(x.x0);
    Neutral(x.x2);
    Neutral(x.x7);
    Neutral(x.x9);
    Neutral(x.x10);
    Neutral(x.x12);
    Neutral(x.x13);
    Neutral(Octet(0));
    Neutral(Plus(x.x12, x.x13));
    Commute(x.x2, x.x0);
    Commute(x.x10, x.x9);
    RegroupB(x.x0, x.x2, x.x7, x.x9, x.x10, x.x12, x.x13);
  }

  lemma RowB3(x: Octets)
    ensures Row3(MB, x) == Sum(x.x1, x.x3, x.x6, x.x8, x.x11, x.x12, x.x13)
  {
    hide Plus;
    Neutral(x.x1);
    Neutral(x.x3);
    Neutral(x.x6);
    Neutral(x.x8);
    Neutral(x.x11);
    Neutral(x.x12);
    Neutral(x.x13);
    Neutral(Octet(0));
    Neutral(Plus(x.x13, x.x12));
    Commute(x.x3, x.x1);
    Commute(x.x11, x.x8);
    Commute(x.x13, x.x12);
    RegroupB(x.x1, x.x3, x.x6, x.x8, x.x11, x.x12, x.x13);
  }

  lemma RowC0(x: Octets)
    ensures Row0(MC, x) == Sum(x.x0, x.x1, x.x4, x.x7, x.x10, x.x13, x.x15)
  {
    hide Plus;
    Neutral(x.x0);
    Neutral(x.x1);
    Neutral(x.x4);
    Neutral(x.x7);
    Neutral(x.x10);
    Neutral(x.x13);
    Neutral(x.x15);
    Neutral(Octet(0));
    Neutral(Plus(x.x0, x.x1));
    RegroupC(x.x0, x.x1, x.x4, x.x7, x.x10, x.x13, x.x15);
  }

  lemma RowC1(x: Octets)
    ensures Row1(MC, x) == Sum(x.x0, x.x1, x.x5, x.x6, x.x11, x.x12, x.x14)
  {
    hide Plus;
    Neutral(x.x0);
    Neutral(x.x1);
    Neutral(x.x5);
    Neutral(x.x6);
    Neutral(x.x11);
    Neutral(x.x12);
    Neutral(x.x14);
    Neutral(Octet(0));
    Neutral(Plus(x.x1, x.x0));
    Commute(x.x1, x.x0);
    RegroupC(x.x0, x.x1, x.x5, x.x6, x.x11, x.x12, x.x14);
  }

  lemma RowC2(x: Octets)
    ensures Row2(MC, x) == Sum(x.x2, x.x3, x.x5, x.x6, x.x8, x.x13, x.x15)
  {
    hide Plus;
    Neutral(x.x2);
    Neutral(x.x3);
    Neutral(x.x5);
    Neutral(x.x6);
    Neutral(x.x8);
    Neutral(x.x13);
    Neutral(x.x15);
    Neutral(Octet(0));
    Neutral(Plus(x.x2, x.x3));
    Commute(x.x6, x.x5);
    Commute(x.x15, x.x13);
    RegroupC(x.x2, x.x3, x.x5, x.x6, x.x8, x.x13, x.x15);
  }

  lemma RowC3(x: Octets)
    ensures Row3(MC, x) == Sum(x.x2, x.x3, x.x4, x.x7, x.x9, x.x12, x.x14)
  {
    hide Plus;
    Neutral(x.x2);
    Neutral(x.x3);
    Neutral(x.x4);
    Neutral(x.x7);
    Neutral(x.x9);
    Neutral(x.x12);
    Neutral(x.x14);
    Neutral(Octet(0));
    Neutral(Plus(x.x3, x.x2));
    Commute(x.x3, x.x2);
    Commute(x.x7, x.x4);
    Commute(x.x14, x.x12);
    RegroupC(x.x2, x.x3, x.x4, x.x7, x.x9, x.x12, x.x14);
  }

  lemma RowD0(x: Octets)
    ensures Row0(MD, x) == Sum(x.x1, x.x2, x.x6, x.x7, x.x9, x.x11, x.x12)
  {
    hide Plus;
    Neutral(x.x1);
    Neutral(x.x2);
    Neutral(x.x6);
    Neutral(x.x7);
    Neutral(x.x9);
    Neutral(x.x11);
    Neutral(x.x12);
    Neutral(Octet(0));
    Neutral(Plus(x.x6, x.x7));
    RegroupD(x.x1, x.x2, x.x6, x.x7, x.x9, x.x11, x.x12);
  }

  lemma RowD1(x: Octets)
    ensures Row1(MD, x) == Sum(x.x0, x.x3, x.x6, x.x7, x.x8, x.x10, x.x13)
  {
    hide Plus;
    Neutral(x.x0);
    Neutral(x.x3);
    Neutral(x.x6);
    Neutral(x.x7);
    Neutral(x.x8);
    Neutral(x.x10);
    Neutral(x.x13);
    Neutral(Octet(0));
    Neutral(Plus(x.x7, x.x6));
    Commute(x.x7, x.x6);
    RegroupD(x.x0, x.x3, x.x6, x.x7, x.x8, x.x10, x.x13);
  }

  lemma RowD2(x: Octets)
    ensures Row2(MD, x) == Sum(x.x0, x.x3, x.x4, x.x5, x.x9, x.x11, x.x14)
  {
    hide Plus;
    Neutral(x.x0);
    Neutral(x.x3);
    Neutral(x.x4);
    Neutral(x.x5);
    Neutral(x.x9);
    Neutral(x.x11);
    Neutral(x.x14);
    Neutral(Octet(0));
    Neutral(Plus(x.x4, x.x5));
    Commute(x.x3, x.x0);
    Commute(x.x11, x.x9);
    RegroupD(x.x0, x.x3, x.x4, x.x5, x.x9, x.x11, x.x14);
  }

  lemma RowD3(x: Octets)
    ensures Row3(MD, x) == Sum(x.x1, x.x2, x.x4, x.x5, x.x8, x.x10, x.x15)
  {
    hide Plus;
    Neutral(x.x1);
    Neutral(x.x2);
    Neutral(x.x4);
    Neutral(x.x5);
    Neutral(x.x8);
    Neutral(x.x10);
    Neutral(x.x15);
    Neutral(Octet(0));
    Neutral(Plus(x.x5, x.x4));
    Commute(x.x2, x.x1);
    Commute(x.x5, x.x4);
    Commute(x.x10, x.x8);
    RegroupD(x.x1, x.x2, x.x4, x.x5, x.x8, x.x10, x.x15);
  }

  /** The diffusion layer on words is the one on bytes. */
  lemma Diffused(s: State)
    ensures OctetsOf(A(s)) == Diffuse(OctetsOf(s))
  {
    hide Row.Of, Row0, Row1, Row2, Row3, O0, O1, O2, O3, Sum;
    var x := OctetsOf(s);
    RowBytes(MA, s);
    RowBytes(MB, s);
    RowBytes(MC, s);
    RowBytes(MD, s);
    RowA0(x);
    RowA1(x);
    RowA2(x);
    RowA3(x);
    RowB0(x);
    RowB1(x);
    RowB2(x);
    RowB3(x);
    RowC0(x);
    RowC1(x);
    RowC2(x);
    RowC3(x);
    RowD0(x);
    RowD1(x);
    RowD2(x);
    RowD3(x);
  }

  // ---------- the same cipher ----------

  lemma {:induction false} RoundsAgree(rk: seq<State>, block: State, i: nat)
    requires i < |rk|
    ensures OctetsOf(Keyed(rk, block, i)) == AddKey(Rounds(Keys(rk), OctetsOf(block), i), OctetsOf(rk[i]))
    ensures OctetsOf(Round(rk, block, i)) == Substitute((i + 1) % 2 == 1, OctetsOf(Keyed(rk, block, i)))
  {
    hide Xor, A, SL, OctetsOf, AddKey, Substitute, Diffuse;
    if i == 0 {
      KeyAdded(block, rk[0]);
    } else {
      RoundsAgree(rk, block, i - 1);
      Diffused(Round(rk, block, i - 1));
      KeyAdded(A(Round(rk, block, i - 1)), rk[i]);
    }
    Substituted(i % 2 == 0, Keyed(rk, block, i));
  }

  /** Encryption with words is the cipher of RFC 5794, byte by byte, for any round keys. */
  lemma CryptIsCipher(rk: seq<State>, nr: nat, block: State)
    requires 1 <= nr < |rk|
    ensures OctetsOf(Crypt(rk, nr, block)) == Cipher(Keys(rk), nr, OctetsOf(block))
  {
    hide Xor, A, SL, OctetsOf, AddKey, Substitute, Diffuse, Round, Rounds;
    RoundsAgree(rk, block, nr - 1);
    KeyAdded(Round(rk, block, nr - 1), rk[nr]);
  }
}
