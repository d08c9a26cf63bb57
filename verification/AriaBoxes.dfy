/** The substitution boxes of ARIA (section 2.4.2 of RFC 5794; mbedtls's aria.c). */
module AriaBoxes {

  /** The `l`-th of sixteen values. */
  function Pick(l: bv8, v0: bv8, v1: bv8, v2: bv8, v3: bv8, v4: bv8, v5: bv8, v6: bv8, v7: bv8,
                v8: bv8, v9: bv8, va: bv8, vb: bv8, vc: bv8, vd: bv8, ve: bv8, vf: bv8): bv8
  {
    if l < 8 then
      if l < 4 then
        if l < 2 then (if l == 0 then v0 else v1) else (if l == 2 then v2 else v3)
      else
        if l < 6 then (if l == 4 then v4 else v5) else (if l == 6 then v6 else v7)
    else
      if l < 12 then
        if l < 10 then (if l == 8 then v8 else v9) else (if l == 10 then va else vb)
      else
        if l < 14 then (if l == 12 then vc else vd) else (if l == 14 then ve else vf)
  }

  /** The first box. */
  function Sb1(x: bv8): bv8 {
    var h, l := x >> 4, x & 15;
    Pick(h,
         Pick(l, 0x63, 0x7C, 0x77, 0x7B, 0xF2, 0x6B, 0x6F, 0xC5, 0x30, 0x01, 0x67, 0x2B, 0xFE, 0xD7, 0xAB, 0x76),
         Pick(l, 0xCA, 0x82, 0xC9, 0x7D, 0xFA, 0x59, 0x47, 0xF0, 0xAD, 0xD4, 0xA2, 0xAF, 0x9C, 0xA4, 0x72, 0xC0),
         Pick(l, 0xB7, 0xFD, 0x93, 0x26, 0x36, 0x3F, 0xF7, 0xCC, 0x34, 0xA5, 0xE5, 0xF1, 0x71, 0xD8, 0x31, 0x15),
         Pick(l, 0x04, 0xC7, 0x23, 0xC3, 0x18, 0x96, 0x05, 0x9A, 0x07, 0x12, 0x80, 0xE2, 0xEB, 0x27, 0xB2, 0x75),
         Pick(l, 0x09, 0x83, 0x2C, 0x1A, 0x1B, 0x6E, 0x5A, 0xA0, 0x52, 0x3B, 0xD6, 0xB3, 0x29, 0xE3, 0x2F, 0x84),
         Pick(l, 0x53, 0xD1, 0x00, 0xED, 0x20, 0xFC, 0xB1, 0x5B, 0x6A, 0xCB, 0xBE, 0x39, 0x4A, 0x4C, 0x58, 0xCF),
         Pick(l, 0xD0, 0xEF, 0xAA, 0xFB, 0x43, 0x4D, 0x33, 0x85, 0x45, 0xF9, 0x02, 0x7F, 0x50, 0x3C, 0x9F, 0xA8),
         Pick(l, 0x51, 0xA3, 0x40, 0x8F, 0x92, 0x9D, 0x38, 0xF5, 0xBC, 0xB6, 0xDA, 0x21, 0x10, 0xFF, 0xF3, 0xD2),
         Pick(l, 0xCD, 0x0C, 0x13, 0xEC, 0x5F, 0x97, 0x44, 0x17, 0xC4, 0xA7, 0x7E, 0x3D, 0x64, 0x5D, 0x19, 0x73),
         Pick(l, 0x60, 0x81, 0x4F, 0xDC, 0x22, 0x2A, 0x90, 0x88, 0x46, 0xEE, 0xB8, 0x14, 0xDE, 0x5E, 0x0B, 0xDB),
         Pick(l, 0xE0, 0x32, 0x3A, 0x0A, 0x49, 0x06, 0x24, 0x5C, 0xC2, 0xD3, 0xAC, 0x62, 0x91, 0x95, 0xE4, 0x79),
         Pick(l, 0xE7, 0xC8, 0x37, 0x6D, 0x8D, 0xD5, 0x4E, 0xA9, 0x6C, 0x56, 0xF4, 0xEA, 0x65, 0x7A, 0xAE, 0x08),
         Pick(l, 0xBA, 0x78, 0x25, 0x2E, 0x1C, 0xA6, 0xB4, 0xC6, 0xE8, 0xDD, 0x74, 0x1F, 0x4B, 0xBD, 0x8B, 0x8A),
         Pick(l, 0x70, 0x3E, 0xB5, 0x66, 0x48, 0x03, 0xF6, 0x0E, 0x61, 0x35, 0x57, 0xB9, 0x86, 0xC1, 0x1D, 0x9E),
         Pick(l, 0xE1, 0xF8, 0x98, 0x11, 0x69, 0xD9, 0x8E, 0x94, 0x9B, 0x1E, 0x87, 0xE9, 0xCE, 0x55, 0x28, 0xDF),
         Pick(l, 0x8C, 0xA1, 0x89, 0x0D, 0xBF, 0xE6, 0x42, 0x68, 0x41, 0x99, 0x2D, 0x0F, 0xB0, 0x54, 0xBB, 0x16))
  }

  /** The second box. */
  function Sb2(x: bv8): bv8 {
    var h, l := x >> 4, x & 15;
    Pick(h,
         Pick(l, 0xE2, 0x4E, 0x54, 0xFC, 0x94, 0xC2, 0x4A, 0xCC, 0x62, 0x0D, 0x6A, 0x46, 0x3C, 0x4D, 0x8B, 0xD1),
         Pick(l, 0x5E, 0xFA, 0x64, 0xCB, 0xB4, 0x97, 0xBE, 0x2B, 0xBC, 0x77, 0x2E, 0x03, 0xD3, 0x19, 0x59, 0xC1),
         Pick(l, 0x1D, 0x06, 0x41, 0x6B, 0x55, 0xF0, 0x99, 0x69, 0xEA, 0x9C, 0x18, 0xAE, 0x63, 0xDF, 0xE7, 0xBB),
         Pick(l, 0x00, 0x73, 0x66, 0xFB, 0x96, 0x4C, 0x85, 0xE4, 0x3A, 0x09, 0x45, 0xAA, 0x0F, 0xEE, 0x10, 0xEB),
         Pick(l, 0x2D, 0x7F, 0xF4, 0x29, 0xAC, 0xCF, 0xAD, 0x91, 0x8D, 0x78, 0xC8, 0x95, 0xF9, 0x2F, 0xCE, 0xCD),
         Pick(l, 0x08, 0x7A, 0x88, 0x38, 0x5C, 0x83, 0x2A, 0x28, 0x47, 0xDB, 0xB8, 0xC7, 0x93, 0xA4, 0x12, 0x53),
         Pick(l, 0xFF, 0x87, 0x0E, 0x31, 0x36, 0x21, 0x58, 0x48, 0x01, 0x8E, 0x37, 0x74, 0x32, 0xCA, 0xE9, 0xB1),
         Pick(l, 0xB7, 0xAB, 0x0C, 0xD7, 0xC4, 0x56, 0x42, 0x26, 0x07, 0x98, 0x60, 0xD9, 0xB6, 0xB9, 0x11, 0x40),
         Pick(l, 0xEC, 0x20, 0x8C, 0xBD, 0xA0, 0xC9, 0x84, 0x04, 0x49, 0x23, 0xF1, 0x4F, 0x50, 0x1F, 0x13, 0xDC),
         Pick(l, 0xD8, 0xC0, 0x9E, 0x57, 0xE3, 0xC3, 0x7B, 0x65, 0x3B, 0x02, 0x8F, 0x3E, 0xE8, 0x25, 0x92, 0xE5),
         Pick(l, 0x15, 0xDD, 0xFD, 0x17, 0xA9, 0xBF, 0xD4, 0x9A, 0x7E, 0xC5, 0x39, 0x67, 0xFE, 0x76, 0x9D, 0x43),
         Pick(l, 0xA7, 0xE1, 0xD0, 0xF5, 0x68, 0xF2, 0x1B, 0x34, 0x70, 0x05, 0xA3, 0x8A, 0xD5, 0x79, 0x86, 0xA8),
         Pick(l, 0x30, 0xC6, 0x51, 0x4B, 0x1E, 0xA6, 0x27, 0xF6, 0x35, 0xD2, 0x6E, 0x24, 0x16, 0x82, 0x5F, 0xDA),
         Pick(l, 0xE6, 0x75, 0xA2, 0xEF, 0x2C, 0xB2, 0x1C, 0x9F, 0x5D, 0x6F, 0x80, 0x0A, 0x72, 0x44, 0x9B, 0x6C),
         Pick(l, 0x90, 0x0B, 0x5B, 0x33, 0x7D, 0x5A, 0x52, 0xF3, 0x61, 0xA1, 0xF7, 0xB0, 0xD6, 0x3F, 0x7C, 0x6D),
         Pick(l, 0xED, 0x14, 0xE0, 0xA5, 0x3D, 0x22, 0xB3, 0xF8, 0x89, 0xDE, 0x71, 0x1A, 0xAF, 0xBA, 0xB5, 0x81))
  }

  /** The inverse of the first box. */
  function Is1(x: bv8): bv8 {
    var h, l := x >> 4, x & 15;
    Pick(h,
         Pick(l, 0x52, 0x09, 0x6A, 0xD5, 0x30, 0x36, 0xA5, 0x38, 0xBF, 0x40, 0xA3, 0x9E, 0x81, 0xF3, 0xD7, 0xFB),
         Pick(l, 0x7C, 0xE3, 0x39, 0x82, 0x9B, 0x2F, 0xFF, 0x87, 0x34, 0x8E, 0x43, 0x44, 0xC4, 0xDE, 0xE9, 0xCB),
         Pick(l, 0x54, 0x7B, 0x94, 0x32, 0xA6, 0xC2, 0x23, 0x3D, 0xEE, 0x4C, 0x95, 0x0B, 0x42, 0xFA, 0xC3, 0x4E),
         Pick(l, 0x08, 0x2E, 0xA1, 0x66, 0x28, 0xD9, 0x24, 0xB2, 0x76, 0x5B, 0xA2, 0x49, 0x6D, 0x8B, 0xD1, 0x25),
         Pick(l, 0x72, 0xF8, 0xF6, 0x64, 0x86, 0x68, 0x98, 0x16, 0xD4, 0xA4, 0x5C, 0xCC, 0x5D, 0x65, 0xB6, 0x92),
         Pick(l, 0x6C, 0x70, 0x48, 0x50, 0xFD, 0xED, 0xB9, 0xDA, 0x5E, 0x15, 0x46, 0x57, 0xA7, 0x8D, 0x9D, 0x84),
         Pick(l, 0x90, 0xD8, 0xAB, 0x00, 0x8C, 0xBC, 0xD3, 0x0A, 0xF7, 0xE4, 0x58, 0x05, 0xB8, 0xB3, 0x45, 0x06),
         Pick(l, 0xD0, 0x2C, 0x1E, 0x8F, 0xCA, 0x3F, 0x0F, 0x02, 0xC1, 0xAF, 0xBD, 0x03, 0x01, 0x13, 0x8A, 0x6B),
         Pick(l, 0x3A, 0x91, 0x11, 0x41, 0x4F, 0x67, 0xDC, 0xEA, 0x97, 0xF2, 0xCF, 0xCE, 0xF0, 0xB4, 0xE6, 0x73),
         Pick(l, 0x96, 0xAC, 0x74, 0x22, 0xE7, 0xAD, 0x35, 0x85, 0xE2, 0xF9, 0x37, 0xE8, 0x1C, 0x75, 0xDF, 0x6E),
         Pick(l, 0x47, 0xF1, 0x1A, 0x71, 0x1D, 0x29, 0xC5, 0x89, 0x6F, 0xB7, 0x62, 0x0E, 0xAA, 0x18, 0xBE, 0x1B),
         Pick(l, 0xFC, 0x56, 0x3E, 0x4B, 0xC6, 0xD2, 0x79, 0x20, 0x9A, 0xDB, 0xC0, 0xFE, 0x78, 0xCD, 0x5A, 0xF4),
         Pick(l, 0x1F, 0xDD, 0xA8, 0x33, 0x88, 0x07, 0xC7, 0x31, 0xB1, 0x12, 0x10, 0x59, 0x27, 0x80, 0xEC, 0x5F),
         Pick(l, 0x60, 0x51, 0x7F, 0xA9, 0x19, 0xB5, 0x4A, 0x0D, 0x2D, 0xE5, 0x7A, 0x9F, 0x93, 0xC9, 0x9C, 0xEF),
         Pick(l, 0xA0, 0xE0, 0x3B, 0x4D, 0xAE, 0x2A, 0xF5, 0xB0, 0xC8, 0xEB, 0xBB, 0x3C, 0x83, 0x53, 0x99, 0x61),
         Pick(l, 0x17, 0x2B, 0x04, 0x7E, 0xBA, 0x77, 0xD6, 0x26, 0xE1, 0x69, 0x14, 0x63, 0x55, 0x21, 0x0C, 0x7D))
  }

  /** The inverse of the second box. */
  function Is2(x: bv8): bv8 {
    var h, l := x >> 4, x & 15;
    Pick(h,
         Pick(l, 0x30, 0x68, 0x99, 0x1B, 0x87, 0xB9, 0x21, 0x78, 0x50, 0x39, 0xDB, 0xE1, 0x72, 0x09, 0x62, 0x3C),
         Pick(l, 0x3E, 0x7E, 0x5E, 0x8E, 0xF1, 0xA0, 0xCC, 0xA3, 0x2A, 0x1D, 0xFB, 0xB6, 0xD6, 0x20, 0xC4, 0x8D),
         Pick(l, 0x81, 0x65, 0xF5, 0x89, 0xCB, 0x9D, 0x77, 0xC6, 0x57, 0x43, 0x56, 0x17, 0xD4, 0x40, 0x1A, 0x4D),
         Pick(l, 0xC0, 0x63, 0x6C, 0xE3, 0xB7, 0xC8, 0x64, 0x6A, 0x53, 0xAA, 0x38, 0x98, 0x0C, 0xF4, 0x9B, 0xED),
         Pick(l, 0x7F, 0x22, 0x76, 0xAF, 0xDD, 0x3A, 0x0B, 0x58, 0x67, 0x88, 0x06, 0xC3, 0x35, 0x0D, 0x01, 0x8B),
         Pick(l, 0x8C, 0xC2, 0xE6, 0x5F, 0x02, 0x24, 0x75, 0x93, 0x66, 0x1E, 0xE5, 0xE2, 0x54, 0xD8, 0x10, 0xCE),
         Pick(l, 0x7A, 0xE8, 0x08, 0x2C, 0x12, 0x97, 0x32, 0xAB, 0xB4, 0x27, 0x0A, 0x23, 0xDF, 0xEF, 0xCA, 0xD9),
         Pick(l, 0xB8, 0xFA, 0xDC, 0x31, 0x6B, 0xD1, 0xAD, 0x19, 0x49, 0xBD, 0x51, 0x96, 0xEE, 0xE4, 0xA8, 0x41),
         Pick(l, 0xDA, 0xFF, 0xCD, 0x55, 0x86, 0x36, 0xBE, 0x61, 0x52, 0xF8, 0xBB, 0x0E, 0x82, 0x48, 0x69, 0x9A),
         Pick(l, 0xE0, 0x47, 0x9E, 0x5C, 0x04, 0x4B, 0x34, 0x15, 0x79, 0x26, 0xA7, 0xDE, 0x29, 0xAE, 0x92, 0xD7),
         Pick(l, 0x84, 0xE9, 0xD2, 0xBA, 0x5D, 0xF3, 0xC5, 0xB0, 0xBF, 0xA4, 0x3B, 0x71, 0x44, 0x46, 0x2B, 0xFC),
         Pick(l, 0xEB, 0x6F, 0xD5, 0xF6, 0x14, 0xFE, 0x7C, 0x70, 0x5A, 0x7D, 0xFD, 0x2F, 0x18, 0x83, 0x16, 0xA5),
         Pick(l, 0x91, 0x1F, 0x05, 0x95, 0x74, 0xA9, 0xC1, 0x5B, 0x4A, 0x85, 0x6D, 0x13, 0x07, 0x4F, 0x4E, 0x45),
         Pick(l, 0xB2, 0x0F, 0xC9, 0x1C, 0xA6, 0xBC, 0xEC, 0x73, 0x90, 0x7B, 0xCF, 0x59, 0x8F, 0xA1, 0xF9, 0x2D),
         Pick(l, 0xF2, 0xB1, 0x00, 0x94, 0x37, 0x9F, 0xD0, 0x2E, 0x9C, 0x6E, 0x28, 0x3F, 0x80, 0xF0, 0x3D, 0xD3),
         Pick(l, 0x25, 0x8A, 0xB5, 0xE7, 0x42, 0xB3, 0xC7, 0xEA, 0xF7, 0x4C, 0x11, 0x33, 0x03, 0xA2, 0xAC, 0x60))
  }

  lemma Is1Undoes(x: bv8)
    ensures Is1(Sb1(x)) == x
  {
  }

  lemma Sb1Undoes(x: bv8)
    ensures Sb1(Is1(x)) == x
  {
  }

  lemma Is2Undoes(x: bv8)
    ensures Is2(Sb2(x)) == x
  {
  }

  lemma Sb2Undoes(x: bv8)
    ensures Sb2(Is2(x)) == x
  {
  }

  // ---------- the boxes as inverses in GF(2^8) ----------

  /** Twice a polynomial over GF(2), modulo x^8 + x^4 + x^3 + x + 1. */
  function Twice(a: bv8): bv8 {
    if a >> 7 == 1 then (a << 1) ^ 0x1B else a << 1
  }

  function IfOdd(c: bv8, a: bv8): bv8 {
    if c & 1 == 1 then a else 0
  }

  /** The sum of the columns that the bits of `z` select. */
  function Columns(z: bv8, c0: bv8, c1: bv8, c2: bv8, c3: bv8, c4: bv8, c5: bv8, c6: bv8, c7: bv8): bv8 {
    IfOdd(z, c0) ^ IfOdd(z >> 1, c1) ^ IfOdd(z >> 2, c2) ^ IfOdd(z >> 3, c3)
    ^ IfOdd(z >> 4, c4) ^ IfOdd(z >> 5, c5) ^ IfOdd(z >> 6, c6) ^ IfOdd(z >> 7, c7)
  }

  function Product(z: bv8, a: bv8): bv8 {
    var a1 := Twice(a);
    var a2 := Twice(a1);
    var a3 := Twice(a2);
    var a4 := Twice(a3);
    var a5 := Twice(a4);
    var a6 := Twice(a5);
    Columns(z, a, a1, a2, a3, a4, a5, a6, Twice(a6))
  }

  /** `z` is the multiplicative inverse of `x`, or both are 0. */
  predicate Inverses(x: bv8, z: bv8) {
    if x == 0 then z == 0 else Product(z, x) == 1
  }

  /** A matrix over GF(2), and a constant. */
  function Affine1(z: bv8): bv8 {
    Columns(z, 0x1F, 0x3E, 0x7C, 0xF8, 0xF1, 0xE3, 0xC7, 0x8F) ^ 0x63
  }

  function Back1(y: bv8): bv8 {
    Columns(y ^ 0x63, 0x4A, 0x94, 0x29, 0x52, 0xA4, 0x49, 0x92, 0x25)
  }

  lemma Box1At0(x: bv8)
    requires x >> 5 == 0
    ensures Inverses(x, Back1(Sb1(x))) && Sb1(x) == Affine1(Back1(Sb1(x)))
  {
  }

  lemma Box1At1(x: bv8)
    requires x >> 5 == 1
    ensures Inverses(x, Back1(Sb1(x))) && Sb1(x) == Affine1(Back1(Sb1(x)))
  {
  }

  lemma Box1At2(x: bv8)
    requires x >> 5 == 2
    ensures Inverses(x, Back1(Sb1(x))) && Sb1(x) == Affine1(Back1(Sb1(x)))
  {
  }

  lemma Box1At3(x: bv8)
    requires x >> 5 == 3
    ensures Inverses(x, Back1(Sb1(x))) && Sb1(x) == Affine1(Back1(Sb1(x)))
  {
  }

  lemma Box1At4(x: bv8)
    requires x >> 5 == 4
    ensures Inverses(x, Back1(Sb1(x))) && Sb1(x) == Affine1(Back1(Sb1(x)))
  {
  }

  lemma Box1At5(x: bv8)
    requires x >> 5 == 5
    ensures Inverses(x, Back1(Sb1(x))) && Sb1(x) == Affine1(Back1(Sb1(x)))
  {
  }

  lemma Box1At6(x: bv8)
    requires x >> 5 == 6
    ensures Inverses(x, Back1(Sb1(x))) && Sb1(x) == Affine1(Back1(Sb1(x)))
  {
  }

  lemma Box1At7(x: bv8)
    requires x >> 5 == 7
    ensures Inverses(x, Back1(Sb1(x))) && Sb1(x) == Affine1(Back1(Sb1(x)))
  {
  }

  lemma Eighths1(x: bv8)
    ensures Inverses(x, Back1(Sb1(x))) && Sb1(x) == Affine1(Back1(Sb1(x)))
  {
    hide Sb1, Back1, Affine1, Inverses;
    match x >> 5 {
      case 0 => Box1At0(x);
      case 1 => Box1At1(x);
      case 2 => Box1At2(x);
      case 3 => Box1At3(x);
      case 4 => Box1At4(x);
      case 5 => Box1At5(x);
      case 6 => Box1At6(x);
      case 7 => Box1At7(x);
    }
  }

  /** The first box is an affine map of the inverse. */
  lemma Box1(x: bv8) returns (z: bv8)
    ensures Inverses(x, z) && Sb1(x) == Affine1(z)
  {
    hide Sb1, Back1, Affine1, Inverses;
    z := Back1(Sb1(x));
    Eighths1(x);
  }

  /** A matrix over GF(2), and a constant. */
  function Affine2(z: bv8): bv8 {
    Columns(z, 0xAC, 0xFD, 0xC6, 0x83, 0x26, 0xA7, 0xFB, 0x5F) ^ 0xE2
  }

  function Back2(y: bv8): bv8 {
    Columns(y ^ 0xE2, 0xD8, 0x38, 0x7A, 0xC1, 0x75, 0x52, 0xAE, 0xE8)
  }

  lemma Box2At0(x: bv8)
    requires x >> 5 == 0
    ensures Inverses(x, Back2(Sb2(x))) && Sb2(x) == Affine2(Back2(Sb2(x)))
  {
  }

  lemma Box2At1(x: bv8)
    requires x >> 5 == 1
    ensures Inverses(x, Back2(Sb2(x))) && Sb2(x) == Affine2(Back2(Sb2(x)))
  {
  }

  lemma Box2At2(x: bv8)
    requires x >> 5 == 2
    ensures Inverses(x, Back2(Sb2(x))) && Sb2(x) == Affine2(Back2(Sb2(x)))
  {
  }

  lemma Box2At3(x: bv8)
    requires x >> 5 == 3
    ensures Inverses(x, Back2(Sb2(x))) && Sb2(x) == Affine2(Back2(Sb2(x)))
  {
  }

  lemma Box2At4(x: bv8)
    requires x >> 5 == 4
    ensures Inverses(x, Back2(Sb2(x))) && Sb2(x) == Affine2(Back2(Sb2(x)))
  {
  }

  lemma Box2At5(x: bv8)
    requires x >> 5 == 5
    ensures Inverses(x, Back2(Sb2(x))) && Sb2(x) == Affine2(Back2(Sb2(x)))
  {
  }

  lemma Box2At6(x: bv8)
    requires x >> 5 == 6
    ensures Inverses(x, Back2(Sb2(x))) && Sb2(x) == Affine2(Back2(Sb2(x)))
  {
  }

  lemma Box2At7(x: bv8)
    requires x >> 5 == 7
    ensures Inverses(x, Back2(Sb2(x))) && Sb2(x) == Affine2(Back2(Sb2(x)))
  {
  }

  lemma Eighths2(x: bv8)
    ensures Inverses(x, Back2(Sb2(x))) && Sb2(x) == Affine2(Back2(Sb2(x)))
  {
    hide Sb2, Back2, Affine2, Inverses;
    match x >> 5 {
      case 0 => Box2At0(x);
      case 1 => Box2At1(x);
      case 2 => Box2At2(x);
      case 3 => Box2At3(x);
      case 4 => Box2At4(x);
      case 5 => Box2At5(x);
      case 6 => Box2At6(x);
      case 7 => Box2At7(x);
    }
  }

  /** The second box is an affine map of the inverse. */
  lemma Box2(x: bv8) returns (z: bv8)
    ensures Inverses(x, z) && Sb2(x) == Affine2(z)
  {
    hide Sb2, Back2, Affine2, Inverses;
    z := Back2(Sb2(x));
    Eighths2(x);
  }
}
