/** The block cipher ARIA: decryption is encryption with transformed keys (mbedtls's aria.c; RFC 5794). */
module Aria {
  import opened AriaBoxes

  /** A 32-bit word. */
  datatype Word = Word(bits: bv32)

  const ZERO := Word(0)

  /** The state of four 32-bit words, lowest byte first. */
  datatype State = State(a: Word, b: Word, c: Word, d: Word)

  function X(x: Word, y: Word): Word {
    Word(x.bits ^ y.bits)
  }

  function Xor(s: State, k: State): State {
    State(X(s.a, k.a), X(s.b, k.b), X(s.c, k.c), X(s.d, k.d))
  }

  // ---------- words ----------

  /** Swaps the bytes in each half of a word. */
  function P1(x: Word): Word {
    Word(((x.bits >> 8) & 0x00FF00FF) ^ ((x.bits & 0x00FF00FF) << 8))
  }

  /** Swaps the halves of a word. */
  function P2(x: Word): Word {
    Word((x.bits >> 16) ^ (x.bits << 16))
  }

  /** Swaps the bytes of a word end for end. */
  function P3(x: Word): Word {
    P1(P2(x))
  }

  lemma P1Linear(x: Word, y: Word)
    ensures P1(X(x, y)) == X(P1(x), P1(y))
  {
  }

  lemma P2Linear(x: Word, y: Word)
    ensures P2(X(x, y)) == X(P2(x), P2(y))
  {
  }

  lemma P3Linear(x: Word, y: Word)
    ensures P3(X(x, y)) == X(P3(x), P3(y))
  {
    hide P1, P2, X;
    P2Linear(x, y);
    P1Linear(P2(x), P2(y));
  }

  lemma P1Twice(x: Word)
    ensures P1(P1(x)) == x
  {
  }

  lemma P2Twice(x: Word)
    ensures P2(P2(x)) == x
  {
  }

  lemma Conjugate(x: Word)
    ensures P2(P1(P2(x))) == P1(x)
  {
  }

  lemma Involutions(x: Word)
    ensures P1(P1(x)) == x && P2(P2(x)) == x && P3(P3(x)) == x
  {
    hide P1, P2;
    P1Twice(x);
    P2Twice(x);
    Conjugate(x);
  }

  lemma Commute(x: Word)
    ensures P2(P1(x)) == P1(P2(x))
  {
    hide P1, P2;
    Conjugate(x);
    Involutions(P1(P2(x)));
  }

  lemma Products(x: Word)
    ensures P2(P1(x)) == P3(x) && P1(P3(x)) == P2(x) && P2(P3(x)) == P1(x) && P3(P1(x)) == P2(x) && P3(P2(x)) == P1(x)
  {
    hide P1, P2;
    Commute(x);
    Involutions(x);
    Involutions(P1(x));
    Involutions(P2(x));
    P3Is(x);
  }

  lemma P3Is(x: Word)
    ensures P1(P2(x)) == P3(x)
  {
  }

  lemma Associative(p: Word, q: Word, r: Word)
    ensures X(X(p, q), r) == X(p, X(q, r))
  {
  }

  lemma Commutative(p: Word, q: Word)
    ensures X(p, q) == X(q, p) && X(p, p) == ZERO && X(p, ZERO) == p
  {
  }

  lemma Interchange(p: Word, p': Word, q: Word, q': Word)
    ensures X(X(p, p'), X(q, q')) == X(X(p, q), X(p', q'))
  {
    hide X;
    Associative(p, p', X(q, q'));
    Associative(p', q, q');
    Commutative(p', q);
    Associative(q, p', q');
    Associative(p, q, X(p', q'));
  }

  lemma ZeroWord()
    ensures P1(ZERO) == ZERO && P2(ZERO) == ZERO && P3(ZERO) == ZERO
  {
  }

  // ---------- sums of permuted words ----------

  /** Which of a word and its three permutations are added up. */
  datatype Mask = Mask(m0: bool, m1: bool, m2: bool, m3: bool) {
    function Plus(n: Mask): Mask {
      Mask(m0 != n.m0, m1 != n.m1, m2 != n.m2, m3 != n.m3)
    }

    function P1(): Mask {
      Mask(m1, m0, m3, m2)
    }

    function P2(): Mask {
      Mask(m2, m3, m0, m1)
    }

    function P3(): Mask {
      Mask(m3, m2, m1, m0)
    }
  }

  function If(c: bool, x: Word): Word {
    if c then x else ZERO
  }

  /** The sum that a mask selects. */
  function Select(m: Mask, x: Word): Word {
    X(X(If(m.m0, x), If(m.m1, P1(x))), X(If(m.m2, P2(x)), If(m.m3, P3(x))))
  }

  lemma IfPlus(c: bool, d: bool, x: Word)
    ensures X(If(c, x), If(d, x)) == If(c != d, x)
  {
    hide X;
    Commutative(x, ZERO);
    Commutative(x, x);
    Commutative(ZERO, ZERO);
  }

  lemma PairPlus(c: bool, c': bool, d: bool, d': bool, x: Word, y: Word)
    ensures X(X(If(c, x), If(c', y)), X(If(d, x), If(d', y))) == X(If(c != d, x), If(c' != d', y))
  {
    hide X, If;
    Interchange(If(c, x), If(c', y), If(d, x), If(d', y));
    IfPlus(c, d, x);
    IfPlus(c', d', y);
  }

  lemma SelectPlus(m: Mask, n: Mask, x: Word)
    ensures X(Select(m, x), Select(n, x)) == Select(m.Plus(n), x)
  {
    hide X, If, P1, P2, P3, Select;
    var lo, hi := X(If(m.m0, x), If(m.m1, P1(x))), X(If(m.m2, P2(x)), If(m.m3, P3(x)));
    var lo', hi' := X(If(n.m0, x), If(n.m1, P1(x))), X(If(n.m2, P2(x)), If(n.m3, P3(x)));
    SelectOf(m.m0, m.m1, m.m2, m.m3, x);
    SelectOf(n.m0, n.m1, n.m2, n.m3, x);
    SelectOf(m.m0 != n.m0, m.m1 != n.m1, m.m2 != n.m2, m.m3 != n.m3, x);
    Interchange(lo, hi, lo', hi');
    PairPlus(m.m0, m.m1, n.m0, n.m1, x, P1(x));
    PairPlus(m.m2, m.m3, n.m2, n.m3, P2(x), P3(x));
  }

  lemma SelectOf(m0: bool, m1: bool, m2: bool, m3: bool, x: Word)
    ensures Select(Mask(m0, m1, m2, m3), x) == X(X(If(m0, x), If(m1, P1(x))), X(If(m2, P2(x)), If(m3, P3(x))))
  {
  }

  /** Permuting a sum permutes its mask. */
  lemma SelectP1(m: Mask, x: Word)
    ensures P1(Select(m, x)) == Select(m.P1(), x)
  {
    hide X, P1, P2, P3;
    ZeroWord();
    P1Linear(X(If(m.m0, x), If(m.m1, P1(x))), X(If(m.m2, P2(x)), If(m.m3, P3(x))));
    P1Linear(If(m.m0, x), If(m.m1, P1(x)));
    P1Linear(If(m.m2, P2(x)), If(m.m3, P3(x)));
    Involutions(x);
    Products(x);
    P3Is(x);
    Commutative(If(m.m0, P1(x)), If(m.m1, x));
    Commutative(If(m.m2, P3(x)), If(m.m3, P2(x)));
  }

  lemma SelectP2(m: Mask, x: Word)
    ensures P2(Select(m, x)) == Select(m.P2(), x)
  {
    hide X, P1, P2, P3;
    ZeroWord();
    P2Linear(X(If(m.m0, x), If(m.m1, P1(x))), X(If(m.m2, P2(x)), If(m.m3, P3(x))));
    P2Linear(If(m.m0, x), If(m.m1, P1(x)));
    P2Linear(If(m.m2, P2(x)), If(m.m3, P3(x)));
    Involutions(x);
    Products(x);
    Commutative(X(If(m.m0, P2(x)), If(m.m1, P3(x))), X(If(m.m2, x), If(m.m3, P1(x))));
  }

  lemma SelectLinear(m: Mask, x: Word, y: Word)
    ensures Select(m, X(x, y)) == X(Select(m, x), Select(m, y))
  {
    hide X, P1, P2, P3;
    P1Linear(x, y);
    P2Linear(x, y);
    P3Linear(x, y);
    Commutative(ZERO, ZERO);
    Interchange(If(m.m0, x), If(m.m0, y), If(m.m1, P1(x)), If(m.m1, P1(y)));
    Interchange(If(m.m2, P2(x)), If(m.m2, P2(y)), If(m.m3, P3(x)), If(m.m3, P3(y)));
    Interchange(X(If(m.m0, x), If(m.m1, P1(x))), X(If(m.m0, y), If(m.m1, P1(y))),
                X(If(m.m2, P2(x)), If(m.m3, P3(x))), X(If(m.m2, P2(y)), If(m.m3, P3(y))));
  }

  /** One mask for each word of a state: a row of a matrix over the permutations. */
  datatype Row = Row(a: Mask, b: Mask, c: Mask, d: Mask) {
    function Plus(n: Row): Row {
      Row(a.Plus(n.a), b.Plus(n.b), c.Plus(n.c), d.Plus(n.d))
    }

    function P1(): Row {
      Row(a.P1(), b.P1(), c.P1(), d.P1())
    }

    function P2(): Row {
      Row(a.P2(), b.P2(), c.P2(), d.P2())
    }

    function P3(): Row {
      Row(a.P3(), b.P3(), c.P3(), d.P3())
    }

    /** The sum that the row selects from a state. */
    function Of(s: State): Word {
      X(X(Select(a, s.a), Select(b, s.b)), X(Select(c, s.c), Select(d, s.d)))
    }
  }

  lemma RowPlus(m: Row, n: Row, s: State)
    ensures X(m.Of(s), n.Of(s)) == m.Plus(n).Of(s)
  {
    hide X, Select;
    Interchange(X(Select(m.a, s.a), Select(m.b, s.b)), X(Select(m.c, s.c), Select(m.d, s.d)),
                X(Select(n.a, s.a), Select(n.b, s.b)), X(Select(n.c, s.c), Select(n.d, s.d)));
    Interchange(Select(m.a, s.a), Select(m.b, s.b), Select(n.a, s.a), Select(n.b, s.b));
    Interchange(Select(m.c, s.c), Select(m.d, s.d), Select(n.c, s.c), Select(n.d, s.d));
    SelectPlus(m.a, n.a, s.a);
    SelectPlus(m.b, n.b, s.b);
    SelectPlus(m.c, n.c, s.c);
    SelectPlus(m.d, n.d, s.d);
  }

  lemma RowP1(m: Row, s: State)
    ensures P1(m.Of(s)) == m.P1().Of(s)
  {
    hide X, Select, P1;
    P1Linear(X(Select(m.a, s.a), Select(m.b, s.b)), X(Select(m.c, s.c), Select(m.d, s.d)));
    P1Linear(Select(m.a, s.a), Select(m.b, s.b));
    P1Linear(Select(m.c, s.c), Select(m.d, s.d));
    SelectP1(m.a, s.a);
    SelectP1(m.b, s.b);
    SelectP1(m.c, s.c);
    SelectP1(m.d, s.d);
  }

  lemma RowP2(m: Row, s: State)
    ensures P2(m.Of(s)) == m.P2().Of(s)
  {
    hide X, Select, P2;
    P2Linear(X(Select(m.a, s.a), Select(m.b, s.b)), X(Select(m.c, s.c), Select(m.d, s.d)));
    P2Linear(Select(m.a, s.a), Select(m.b, s.b));
    P2Linear(Select(m.c, s.c), Select(m.d, s.d));
    SelectP2(m.a, s.a);
    SelectP2(m.b, s.b);
    SelectP2(m.c, s.c);
    SelectP2(m.d, s.d);
  }

  lemma RowP3(m: Row, s: State)
    ensures P3(m.Of(s)) == m.P3().Of(s)
  {
    hide X, P1, P2, Row.Of;
    RowP2(m, s);
    RowP1(m.P2(), s);
    P3Is(m.Of(s));
  }

  lemma RowLinear(m: Row, s: State, t: State)
    ensures m.Of(Xor(s, t)) == X(m.Of(s), m.Of(t))
  {
    hide X, Select;
    SelectLinear(m.a, s.a, t.a);
    SelectLinear(m.b, s.b, t.b);
    SelectLinear(m.c, s.c, t.c);
    SelectLinear(m.d, s.d, t.d);
    Interchange(Select(m.a, s.a), Select(m.a, t.a), Select(m.b, s.b), Select(m.b, t.b));
    Interchange(Select(m.c, s.c), Select(m.c, t.c), Select(m.d, s.d), Select(m.d, t.d));
    Interchange(X(Select(m.a, s.a), Select(m.b, s.b)), X(Select(m.a, t.a), Select(m.b, t.b)),
                X(Select(m.c, s.c), Select(m.d, s.d)), X(Select(m.c, t.c), Select(m.d, t.d)));
  }

  // ---------- the diffusion layer ----------

  const NONE := Mask(false, false, false, false)
  const ID := Mask(true, false, false, false)
  const EA := Row(ID, NONE, NONE, NONE)
  const EB := Row(NONE, ID, NONE, NONE)
  const EC := Row(NONE, NONE, ID, NONE)
  const ED := Row(NONE, NONE, NONE, ID)

  /** The matrix of the diffusion layer (section 2.4.3 of RFC 5794), read in pairs of columns. */
  const MA := Row(Mask(false, false, false, true), Mask(true, false, true, false), Mask(true, true, false, false),
      Mask(false, true, true, false))
  const MB := Row(Mask(true, false, true, false), Mask(false, true, false, false), Mask(true, false, false, true),
      Mask(false, false, true, true))
  const MC := Row(Mask(true, true, false, false), Mask(true, false, false, true), Mask(false, false, true, false),
      Mask(false, true, false, true))
  const MD := Row(Mask(false, true, true, false), Mask(false, false, true, true), Mask(false, true, false, true),
      Mask(true, false, false, false))

  function A(s: State): State {
    State(MA.Of(s), MB.Of(s), MC.Of(s), MD.Of(s))
  }

  lemma UnitRows(s: State)
    ensures EA.Of(s) == s.a && EB.Of(s) == s.b && EC.Of(s) == s.c && ED.Of(s) == s.d
  {
    hide X, P1, P2, P3;
    Commutative(ZERO, ZERO);
    Commutative(s.a, ZERO);
    Commutative(s.b, ZERO);
    Commutative(s.c, ZERO);
    Commutative(s.d, ZERO);
    Commutative(ZERO, s.b);
    Commutative(ZERO, s.c);
    Commutative(ZERO, s.d);
  }

  /** The diffusion layer, step by step in place. */
  method AriaA(s: State) returns (r: State)
    ensures r == A(s)
  {
    hide X, P1, P2, P3, Row.Of;
    var a, b, c, d := s.a, s.b, s.c, s.d;
    UnitRows(s);
    var ta := b;
    b := a;
    a := P2(ta);
    RowP2(EB, s);
    var tb := P2(d);
    RowP2(ED, s);
    d := P1(c);
    RowP1(EC, s);
    c := P1(tb);
    RowP1(ED.P2(), s);
    ta := X(ta, d);
    ghost var ta1 := EB.Plus(EC.P1());
    RowPlus(EB, EC.P1(), s);
    var tc := P2(b);
    RowP2(EA, s);
    ta := X(X(P1(ta), tc), c);
    ghost var ta2 := ta1.P1().Plus(EA.P2()).Plus(ED.P2().P1());
    RowP1(ta1, s);
    RowPlus(ta1.P1(), EA.P2(), s);
    RowPlus(ta1.P1().Plus(EA.P2()), ED.P2().P1(), s);
    tb := X(tb, P2(d));
    ghost var tb1 := ED.P2().Plus(EC.P1().P2());
    RowP2(EC.P1(), s);
    RowPlus(ED.P2(), EC.P1().P2(), s);
    tc := X(tc, P1(a));
    ghost var tc1 := EA.P2().Plus(EB.P2().P1());
    RowP1(EB.P2(), s);
    RowPlus(EA.P2(), EB.P2().P1(), s);
    b := X(b, X(ta, tb));
    RowPlus(ta2, tb1, s);
    RowPlus(EA, ta2.Plus(tb1), s);
    assert EA.Plus(ta2.Plus(tb1)) == MB;
    tb := X(P2(tb), ta);
    ghost var tb2 := tb1.P2().Plus(ta2);
    RowP2(tb1, s);
    RowPlus(tb1.P2(), ta2, s);
    a := X(a, P1(tb));
    RowP1(tb2, s);
    RowPlus(EB.P2(), tb2.P1(), s);
    assert EB.P2().Plus(tb2.P1()) == MA;
    ta := P2(ta);
    ghost var ta3 := ta2.P2();
    RowP2(ta2, s);
    d := X(d, X(P1(ta), tc));
    RowP1(ta3, s);
    RowPlus(ta3.P1(), tc1, s);
    RowPlus(EC.P1(), ta3.P1().Plus(tc1), s);
    assert EC.P1().Plus(ta3.P1().Plus(tc1)) == MD;
    tc := P2(tc);
    RowP2(tc1, s);
    c := X(c, X(P1(tc), ta));
    RowP1(tc1.P2(), s);
    RowPlus(tc1.P2().P1(), ta3, s);
    RowPlus(ED.P2().P1(), tc1.P2().P1().Plus(ta3), s);
    assert ED.P2().P1().Plus(tc1.P2().P1().Plus(ta3)) == MC;
    r := State(a, b, c, d);
  }

  /** The diffusion layer is linear. */
  lemma ALinear(s: State, t: State)
    ensures A(Xor(s, t)) == Xor(A(s), A(t))
  {
    hide X, Row.Of;
    RowLinear(MA, s, t);
    RowLinear(MB, s, t);
    RowLinear(MC, s, t);
    RowLinear(MD, s, t);
  }

  function IfRow(c: bool, m: Row): Row {
    if c then m else Row(NONE, NONE, NONE, NONE)
  }

  /** The row that a mask makes of another row. */
  function Times(m: Mask, n: Row): Row {
    IfRow(m.m0, n).Plus(IfRow(m.m1, n.P1())).Plus(IfRow(m.m2, n.P2()).Plus(IfRow(m.m3, n.P3())))
  }

  lemma NothingOf(s: State)
    ensures Row(NONE, NONE, NONE, NONE).Of(s) == ZERO
  {
    hide X, P1, P2, P3;
    Commutative(ZERO, ZERO);
  }

  lemma SelectOfRow(m: Mask, n: Row, s: State)
    ensures Select(m, n.Of(s)) == Times(m, n).Of(s)
  {
    hide X, P1, P2, P3, Row.Of;
    NothingOf(s);
    RowP1(n, s);
    RowP2(n, s);
    RowP3(n, s);
    var r0, r1, r2, r3 := IfRow(m.m0, n), IfRow(m.m1, n.P1()), IfRow(m.m2, n.P2()), IfRow(m.m3, n.P3());
    RowPlus(r0, r1, s);
    RowPlus(r2, r3, s);
    RowPlus(r0.Plus(r1), r2.Plus(r3), s);
  }

  /** A row of the matrix applied to the result of the matrix. */
  function TimesMatrix(m: Row): Row {
    Times(m.a, MA).Plus(Times(m.b, MB)).Plus(Times(m.c, MC).Plus(Times(m.d, MD)))
  }

  lemma RowOfA(m: Row, s: State)
    ensures m.Of(A(s)) == TimesMatrix(m).Of(s)
  {
    assert m.Of(A(s)) == X(X(Select(m.a, MA.Of(s)), Select(m.b, MB.Of(s))),
           X(Select(m.c, MC.Of(s)), Select(m.d, MD.Of(s)))) by {
      hide X, Select;
    }
    SumOfRows(m, s);
  }

  lemma SumOfRows(m: Row, s: State)
    ensures X(X(Select(m.a, MA.Of(s)), Select(m.b, MB.Of(s))), X(Select(m.c, MC.Of(s)), Select(m.d, MD.Of(s)))) ==
            TimesMatrix(m).Of(s)
  {
    hide X, Select, Row.Of, Times, Row.Plus;
    SelectOfRow(m.a, MA, s);
    SelectOfRow(m.b, MB, s);
    SelectOfRow(m.c, MC, s);
    SelectOfRow(m.d, MD, s);
    RowPlus(Times(m.a, MA), Times(m.b, MB), s);
    RowPlus(Times(m.c, MC), Times(m.d, MD), s);
    RowPlus(Times(m.a, MA).Plus(Times(m.b, MB)), Times(m.c, MC).Plus(Times(m.d, MD)), s);
  }

  /** The matrix is its own inverse. */
  lemma MatrixSquared()
    ensures TimesMatrix(MA) == EA && TimesMatrix(MB) == EB && TimesMatrix(MC) == EC && TimesMatrix(MD) == ED
  {
    hide TimesMatrix;
    MatrixRowA();
    MatrixRowB();
    MatrixRowC();
    MatrixRowD();
  }

  lemma MatrixRowA()
    ensures TimesMatrix(MA) == EA
  {
  }

  lemma MatrixRowB()
    ensures TimesMatrix(MB) == EB
  {
  }

  lemma MatrixRowC()
    ensures TimesMatrix(MC) == EC
  {
  }

  lemma MatrixRowD()
    ensures TimesMatrix(MD) == ED
  {
  }

  /** The diffusion layer undoes itself. */
  lemma AInvolution(s: State)
    ensures A(A(s)) == s
  {
    hide X, Row.Of, TimesMatrix;
    RowOfA(MA, s);
    RowOfA(MB, s);
    RowOfA(MC, s);
    RowOfA(MD, s);
    MatrixSquared();
    UnitRows(s);
  }

  // ---------- the substitution layers ----------

  function Byte0(x: Word): bv8 {
    (x.bits & 0xFF) as bv8
  }

  function Byte1(x: Word): bv8 {
    ((x.bits >> 8) & 0xFF) as bv8
  }

  function Byte2(x: Word): bv8 {
    ((x.bits >> 16) & 0xFF) as bv8
  }

  function Byte3(x: Word): bv8 {
    ((x.bits >> 24) & 0xFF) as bv8
  }

  function Bytes(b0: bv8, b1: bv8, b2: bv8, b3: bv8): Word {
    Word((b0 as bv32) ^ ((b1 as bv32) << 8) ^ ((b2 as bv32) << 16) ^ ((b3 as bv32) << 24))
  }

  lemma BytesOfWord(x: Word)
    ensures Bytes(Byte0(x), Byte1(x), Byte2(x), Byte3(x)) == x
  {
  }

  lemma WordOfBytes(b0: bv8, b1: bv8, b2: bv8, b3: bv8)
    ensures var x := Bytes(b0, b1, b2, b3); Byte0(x) == b0 && Byte1(x) == b1 && Byte2(x) == b2 && Byte3(x) == b3
  {
  }

  /** A word of the first substitution layer. */
  function Sub1(x: Word): Word {
    Bytes(Sb1(Byte0(x)), Sb2(Byte1(x)), Is1(Byte2(x)), Is2(Byte3(x)))
  }

  function Sub2(x: Word): Word {
    Bytes(Is1(Byte0(x)), Is2(Byte1(x)), Sb1(Byte2(x)), Sb2(Byte3(x)))
  }

  /** The two substitution layers (section 2.4.2 of RFC 5794): the first one in even rounds. */
  function SL(first: bool, s: State): State {
    if first then State(Sub1(s.a), Sub1(s.b), Sub1(s.c), Sub1(s.d))
    else State(Sub2(s.a), Sub2(s.b), Sub2(s.c), Sub2(s.d))
  }

  lemma SubInverse(x: Word)
    ensures Sub2(Sub1(x)) == x && Sub1(Sub2(x)) == x
  {
    hide Bytes, Byte0, Byte1, Byte2, Byte3, Sb1, Sb2, Is1, Is2;
    var b0, b1, b2, b3 := Byte0(x), Byte1(x), Byte2(x), Byte3(x);
    WordOfBytes(Sb1(b0), Sb2(b1), Is1(b2), Is2(b3));
    WordOfBytes(Is1(b0), Is2(b1), Sb1(b2), Sb2(b3));
    Is1Undoes(b0);
    Is2Undoes(b1);
    Sb1Undoes(b2);
    Sb2Undoes(b3);
    Sb1Undoes(b0);
    Sb2Undoes(b1);
    Is1Undoes(b2);
    Is2Undoes(b3);
    BytesOfWord(x);
  }

  /** The two substitution layers undo each other. */
  lemma LayersInverse(first: bool, s: State)
    ensures SL(!first, SL(first, s)) == s
  {
    hide Sub1, Sub2;
    SubInverse(s.a);
    SubInverse(s.b);
    SubInverse(s.c);
    SubInverse(s.d);
  }

  // ---------- the cipher ----------

  /** The state after the substitution of round `i`, where round 0 adds the first key to the block. */
  function Round(rk: seq<State>, block: State, i: nat): State
    requires i < |rk|
  {
    var before := if i == 0 then block else A(Round(rk, block, i - 1));
    SL(i % 2 == 0, Xor(before, rk[i]))
  }

  /** Encryption of a block with the round keys `rk[..nr + 1]`. */
  function Crypt(rk: seq<State>, nr: nat, block: State): State
    requires 1 <= nr < |rk|
  {
    Xor(Round(rk, block, nr - 1), rk[nr])
  }

  /**
    The key schedule for decryption: the keys in reverse order, those in the middle sent through the diffusion layer.
   */
  ghost predicate Reversed(dk: seq<State>, ek: seq<State>, nr: nat) {
    && nr < |ek| == |dk| && dk[0] == ek[nr] && dk[nr] == ek[0]
    && forall i :: 1 <= i < nr ==> dk[i] == A(ek[nr - i])
  }

  lemma XorTwice(s: State, k: State)
    ensures Xor(Xor(s, k), k) == s && Xor(k, Xor(s, k)) == s
  {
    hide X;
    XorTwiceWord(s.a, k.a);
    XorTwiceWord(s.b, k.b);
    XorTwiceWord(s.c, k.c);
    XorTwiceWord(s.d, k.d);
  }

  lemma XorTwiceWord(x: Word, k: Word)
    ensures X(X(x, k), k) == x && X(k, X(x, k)) == x
  {
    hide X;
    Associative(x, k, k);
    Commutative(k, k);
    Commutative(x, ZERO);
    Commutative(k, X(x, k));
  }

  /** What the substitution of round `i` is applied to. */
  function Keyed(rk: seq<State>, block: State, i: nat): State
    requires i < |rk|
  {
    Xor(if i == 0 then block else A(Round(rk, block, i - 1)), rk[i])
  }

  /** Decryption goes back through the rounds of encryption. */
  lemma {:induction false} RoundsBack(ek: seq<State>, dk: seq<State>, nr: nat, block: State, j: nat)
    requires nr % 2 == 0 && j < nr && Reversed(dk, ek, nr)
    ensures Round(dk, Crypt(ek, nr, block), j) == Keyed(ek, block, nr - 1 - j)
  {
    hide Xor, A, SL;
    var c, i := Crypt(ek, nr, block), nr - 1 - j;
    var y := Keyed(ek, block, i);
    assert Round(ek, block, i) == SL(i % 2 == 0, y);
    LayersInverse(i % 2 == 0, y);
    assert (j % 2 == 0) == !(i % 2 == 0);
    if j == 0 {
      XorTwice(Round(ek, block, nr - 1), ek[nr]);
    } else {
      RoundsBack(ek, dk, nr, block, j - 1);
      var later := Keyed(ek, block, i + 1);
      assert later == Xor(A(Round(ek, block, i)), ek[i + 1]);
      assert dk[j] == A(ek[i + 1]);
      ALinear(later, ek[i + 1]);
      XorTwice(A(Round(ek, block, i)), ek[i + 1]);
      AInvolution(Round(ek, block, i));
    }
  }

  /** Decryption undoes encryption, whatever the round keys are. */
  lemma DecryptEncrypt(ek: seq<State>, dk: seq<State>, nr: nat, block: State)
    requires nr % 2 == 0 && nr >= 2 && Reversed(dk, ek, nr)
    ensures Crypt(dk, nr, Crypt(ek, nr, block)) == block
  {
    hide Xor, A, SL;
    RoundsBack(ek, dk, nr, block, nr - 1);
    XorTwice(block, ek[0]);
  }

  /** The cipher's context: the number of rounds and the round keys. */
  class Context {
    var nr: nat
    const rk: array<State>

    predicate Valid()
      reads this
    {
      nr in {12, 14, 16} && rk.Length == 17
    }

    /** A context for encryption with given round keys. */
    constructor (rounds: nat, keys: seq<State>)
      requires rounds in {12, 14, 16} && |keys| == 17
      ensures Valid() && nr == rounds && rk[..] == keys && fresh(rk)
    {
      nr := rounds;
      rk := new State[17](i requires 0 <= i < 17 => keys[i]);
    }

    /** Turns the round keys for encryption into those for decryption. */
    method SetKeyDec()
      requires Valid()
      modifies rk
      ensures Reversed(rk[..nr + 1], old(rk[..nr + 1]), nr)
    {
      hide A;
      var i, j := 0, nr as int;
      while i < j
        invariant 0 <= i <= nr && j == nr - i && i <= j + 1
        invariant forall k :: 0 <= k <= nr ==> rk[k] == if k < i || k > j then old(rk[nr - k]) else old(rk[k])
      {
        rk[i], rk[j] := rk[j], rk[i];
        i := i + 1;
        j := j - 1;
      }
      i := 1;
      while i < nr
        invariant 1 <= i <= nr && rk[0] == old(rk[nr]) && rk[nr] == old(rk[0])
        invariant forall k :: 1 <= k < nr ==> rk[k] == if k < i then A(old(rk[nr - k])) else old(rk[nr - k])
      {
        var r := AriaA(rk[i]);
        rk[i] := r;
        i := i + 1;
      }
    }

    /** Encrypts (or, with the keys for decryption, decrypts) a block, two rounds at a time. */
    method CryptEcb(input: State) returns (output: State)
      requires Valid()
      ensures output == Crypt(rk[..nr + 1], nr, input)
    {
      hide A, SL, Xor;
      var i, s := 0, input;
      ghost var keys := rk[..nr + 1];
      while true
        invariant 0 <= i < nr && i % 2 == 0
        invariant s == if i == 0 then input else A(Round(keys, input, i - 1))
        decreases nr - i
      {
        s := Xor(s, rk[i]);
        i := i + 1;
        s := SL(true, s);
        assert s == Round(keys, input, i - 1);
        s := AriaA(s);
        s := Xor(s, rk[i]);
        i := i + 1;
        s := SL(false, s);
        assert s == Round(keys, input, i - 1);
        if i >= nr {
          break;
        }
        s := AriaA(s);
      }
      output := Xor(s, rk[i]);
    }
  }

  /** Encrypting a block and decrypting the result gives the block back. */
  method EncryptDecrypt(rounds: nat, keys: seq<State>, block: State) returns (plain: State)
    requires rounds in {12, 14, 16} && |keys| == 17
    ensures plain == block
  {
    hide Crypt, Reversed;
    var enc := new Context(rounds, keys);
    var dec := new Context(rounds, keys);
    var cipher := enc.CryptEcb(block);
    dec.SetKeyDec();
    plain := dec.CryptEcb(cipher);
    assert enc.rk[..rounds + 1] == keys[..rounds + 1];
    DecryptEncrypt(keys[..rounds + 1], dec.rk[..rounds + 1], rounds, block);
  }
}
