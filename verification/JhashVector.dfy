/**
 One value of the hash: the phrase on which the author of lookup3 publishes it.
 */
module JhashVector {
  import opened Bits
  import opened Jhash

  // ----- Exclusive or, digit by digit.

  // The digit of x ^ y that has weight p.
  function Digit(x: nat, y: nat, p: nat): nat
    requires p > 0
  {
    if (x / p) % 2 == (y / p) % 2 then 0 else p
  }

  // The 32 digits of x ^ y, without recursion.
  function Digits(x: nat, y: nat): nat {
    Digit(x, y, 0x1) + Digit(x, y, 0x2) + Digit(x, y, 0x4) + Digit(x, y, 0x8) +
    Digit(x, y, 0x10) + Digit(x, y, 0x20) + Digit(x, y, 0x40) + Digit(x, y, 0x80) +
    Digit(x, y, 0x100) + Digit(x, y, 0x200) + Digit(x, y, 0x400) + Digit(x, y, 0x800) +
    Digit(x, y, 0x1000) + Digit(x, y, 0x2000) + Digit(x, y, 0x4000) + Digit(x, y, 0x8000) +
    Digit(x, y, 0x1_0000) + Digit(x, y, 0x2_0000) + Digit(x, y, 0x4_0000) + Digit(x, y, 0x8_0000) +
    Digit(x, y, 0x10_0000) + Digit(x, y, 0x20_0000) + Digit(x, y, 0x40_0000) + Digit(x, y, 0x80_0000) +
    Digit(x, y, 0x100_0000) + Digit(x, y, 0x200_0000) + Digit(x, y, 0x400_0000) + Digit(x, y, 0x800_0000) +
    Digit(x, y, 0x1000_0000) + Digit(x, y, 0x2000_0000) + Digit(x, y, 0x4000_0000) + Digit(x, y, 0x8000_0000)
  }

  lemma HalfAgain(x: nat, p: nat)
    requires p > 0
    ensures (x / p) / 2 == x / (2 * p)
  {
    var h, r := (x / p) / 2, (x / p) % 2;
    assert x == (2 * h + r) * p + x % p;
    assert (2 * h + r) * p == h * (2 * p) + r * p;
    assert 0 <= r * p + x % p < 2 * p;
    DivModUnique(x, 2 * p, h, r * p + x % p);
  }

  lemma XorUnfolds(x: nat, y: nat)
    ensures Xor(x, y) == (if x % 2 == y % 2 then 0 else 1) + 2 * Xor(x / 2, y / 2)
  {
  }

  // What is left of x ^ y from the digit with weight p on.
  function Rest(x: nat, y: nat, p: nat): nat
    requires p > 0
  {
    p * Xor(x / p, y / p)
  }

  lemma XorDigit(x: nat, y: nat, p: nat)
    requires p > 0
    ensures Rest(x, y, p) == Digit(x, y, p) + Rest(x, y, 2 * p)
  {
    HalfAgain(x, p);
    HalfAgain(y, p);
    XorUnfolds(x / p, y / p);
    Distribute(p, if (x / p) % 2 == (y / p) % 2 then 0 else 1, Xor(x / (2 * p), y / (2 * p)));
  }

  lemma Distribute(p: nat, d: nat, rest: nat)
    requires d <= 1
    ensures p * (d + 2 * rest) == (if d == 0 then 0 else p) + (2 * p) * rest
  {
    assert p * (d + 2 * rest) == p * d + p * (2 * rest);
    assert p * (2 * rest) == (2 * p) * rest;
  }

  lemma FourDigits(x: nat, y: nat, p: nat)
    requires p > 0
    ensures Rest(x, y, p) == Digit(x, y, p) + Digit(x, y, 2 * p) + Digit(x, y, 4 * p) + Digit(x, y, 8 * p) + Rest(x, y, 16 * p)
  {
    XorDigit(x, y, p);
    XorDigit(x, y, 2 * p);
    XorDigit(x, y, 4 * p);
    XorDigit(x, y, 8 * p);
  }

  lemma XorDigits(x: UINT, y: UINT)
    ensures Xor32(x, y) == Digits(x, y)
  {
    FourDigits(x, y, 0x1);
    FourDigits(x, y, 0x10);
    FourDigits(x, y, 0x100);
    FourDigits(x, y, 0x1000);
    FourDigits(x, y, 0x1_0000);
    FourDigits(x, y, 0x10_0000);
    FourDigits(x, y, 0x100_0000);
    FourDigits(x, y, 0x1000_0000);
    assert Rest(x, y, 0x1) == Xor(x, y) && Rest(x, y, 0x1_0000_0000) == 0;
  }

  // ----- The two mixers line by line.

  // p is 2^k, and r is y rotated by k.
  predicate Rotates(y: UINT, k: nat, p: nat, r: UINT) {
    0 < k < 32 && 0 < p == Pow2(k) && WORD / p > 0 && r == U32(y * p + y / (WORD / p))
  }

  // A line of JHASH_MIX takes x to z: d is the difference and r the rotated y.
  predicate MixLine(x: UINT, y: UINT, k: nat, p: nat, r: UINT, d: UINT, z: UINT) {
    Rotates(y, k, p, r) && d == Sub(x, y) && Digits(d, r) == z
  }

  // A line of JHASH_FINAL.
  predicate FinalLine(x: UINT, y: UINT, k: nat, p: nat, r: UINT, d: UINT, z: UINT) {
    Rotates(y, k, p, r) && Digits(x, y) == d && z == Sub(d, r)
  }

  lemma RotatesRight(y: UINT, k: nat, p: nat, r: UINT)
    requires Rotates(y, k, p, r)
    ensures Rol32(y, k) == r
  {
    assert Pow2(k) * Pow2(32 - k) == WORD by {
      Pow2Add(k, 32 - k);
      Pow2_32();
    }
    Cofactor(p, Pow2(32 - k));
  }

  lemma Cofactor(p: nat, q: nat)
    requires p > 0 && p * q == WORD
    ensures WORD / p == q
  {
    DivModUnique(WORD, p, q, 0);
  }

  lemma MixLineRight(x: UINT, y: UINT, k: nat, p: nat, r: UINT, d: UINT, z: UINT)
    requires MixLine(x, y, k, p, r, d, z)
    ensures MixX(x, y, k) == z
  {
    RotatesRight(y, k, p, r);
    XorDigits(d, r);
  }

  lemma FinalLineRight(x: UINT, y: UINT, k: nat, p: nat, r: UINT, d: UINT, z: UINT)
    requires FinalLine(x, y, k, p, r, d, z)
    ensures FinalX(x, y, k) == z
  {
    RotatesRight(y, k, p, r);
    XorDigits(x, y);
  }

  lemma Shifts()
    ensures Pow2(4) == 0x10 && Pow2(6) == 0x40 && Pow2(8) == 0x100 && Pow2(11) == 0x800 && Pow2(14) == 0x4000
    ensures Pow2(16) == 0x1_0000 && Pow2(19) == 0x8_0000 && Pow2(24) == 0x100_0000 && Pow2(25) == 0x200_0000
  {
    Pow2_16();
    assert Pow2(7) == 0x80 && Pow2(11) == 0x800;
    assert Pow2(18) == 0x4_0000;
    assert Pow2(20) == 0x10_0000;
    assert Pow2(22) == 0x40_0000;
    assert Pow2(24) == 0x100_0000;
  }

  // JHASH_MIX, from its lines.
  lemma MixTraced(a: UINT, b: UINT, c: UINT, c1: UINT, a2: UINT, b2: UINT, c3: UINT, a4: UINT, b4: UINT,
                  r0: UINT, d0: UINT, z0: UINT, r1: UINT, d1: UINT, z1: UINT, r2: UINT, d2: UINT, z2: UINT,
                  r3: UINT, d3: UINT, z3: UINT, r4: UINT, d4: UINT, z4: UINT, r5: UINT, d5: UINT, z5: UINT)
    requires MixLine(a, c, 4, 0x10, r0, d0, z0) && c1 == Add(c, b)
    requires MixLine(b, z0, 6, 0x40, r1, d1, z1) && a2 == Add(z0, c1)
    requires MixLine(c1, z1, 8, 0x100, r2, d2, z2) && b2 == Add(z1, a2)
    requires MixLine(a2, z2, 16, 0x1_0000, r3, d3, z3) && c3 == Add(z2, b2)
    requires MixLine(b2, z3, 19, 0x8_0000, r4, d4, z4) && a4 == Add(z3, c3)
    requires MixLine(c3, z4, 4, 0x10, r5, d5, z5) && b4 == Add(z4, a4)
    ensures Mix(Abc(a, b, c)) == Abc(a4, b4, z5)
  {
    MixLineRight(a, c, 4, 0x10, r0, d0, z0);
    MixLineRight(b, z0, 6, 0x40, r1, d1, z1);
    MixLineRight(c1, z1, 8, 0x100, r2, d2, z2);
    MixLineRight(a2, z2, 16, 0x1_0000, r3, d3, z3);
    MixLineRight(b2, z3, 19, 0x8_0000, r4, d4, z4);
    MixLineRight(c3, z4, 4, 0x10, r5, d5, z5);
  }

  // JHASH_FINAL, from its lines.
  lemma FinalTraced(a: UINT, b: UINT, c: UINT, r0: UINT, d0: UINT, z0: UINT, r1: UINT, d1: UINT, z1: UINT,
                    r2: UINT, d2: UINT, z2: UINT, r3: UINT, d3: UINT, z3: UINT, r4: UINT, d4: UINT, z4: UINT,
                    r5: UINT, d5: UINT, z5: UINT, r6: UINT, d6: UINT, z6: UINT)
    requires FinalLine(c, b, 14, 0x4000, r0, d0, z0) && FinalLine(a, z0, 11, 0x800, r1, d1, z1)
    requires FinalLine(b, z1, 25, 0x200_0000, r2, d2, z2) && FinalLine(z0, z2, 16, 0x1_0000, r3, d3, z3)
    requires FinalLine(z1, z3, 4, 0x10, r4, d4, z4) && FinalLine(z2, z4, 14, 0x4000, r5, d5, z5)
    requires FinalLine(z3, z5, 24, 0x100_0000, r6, d6, z6)
    ensures Final(Abc(a, b, c)) == Abc(z4, z5, z6)
  {
    FinalLineRight(c, b, 14, 0x4000, r0, d0, z0);
    FinalLineRight(a, z0, 11, 0x800, r1, d1, z1);
    FinalLineRight(b, z1, 25, 0x200_0000, r2, d2, z2);
    FinalLineRight(z0, z2, 16, 0x1_0000, r3, d3, z3);
    FinalLineRight(z1, z3, 4, 0x10, r4, d4, z4);
    FinalLineRight(z2, z4, 14, 0x4000, r5, d5, z5);
    FinalLineRight(z3, z5, 24, 0x100_0000, r6, d6, z6);
  }

  // Round 1: the operands and results of its lines.

  lemma Xor1a() ensures Digits(0x1155_09d4, 0xfce2_47f3) == 0xedb7_4e27 {}
  lemma Rol1a() ensures Rotates(0x3fce_247f, 4, 0x10, 0xfce2_47f3) { Shifts(); }
  lemma Xor1b() ensures Digits(0x6059_e406, 0x6dd3_89fb) == 0xd8a_6dfd {}
  lemma Rol1b() ensures Rotates(0xedb7_4e27, 6, 0x40, 0x6dd3_89fb) { Shifts(); }
  lemma Xor1c() ensures Digits(0x8054_e8af, 0x8a6d_fd0d) == 0xa39_15a2 {}
  lemma Rol1c() ensures Rotates(0xd8a_6dfd, 8, 0x100, 0x8a6d_fd0d) { Shifts(); }
  lemma Xor1d() ensures Digits(0x715d_8f31, 0x15a2_0a39) == 0x64ff_8508 {}
  lemma Rol1d() ensures Rotates(0xa39_15a2, 16, 0x1_0000, 0x15a2_0a39) { Shifts(); }
  lemma Xor1e() ensures Digits(0x2421_8dc8, 0x2843_27fc) == 0xc62_aa34 {}
  lemma Rol1e() ensures Rotates(0x64ff_8508, 19, 0x8_0000, 0x2843_27fc) { Shifts(); }
  lemma Xor1f() ensures Digits(0x86f7_7e3e, 0xc62a_a340) == 0x40dd_dd7e {}
  lemma Rol1f() ensures Rotates(0xc62_aa34, 4, 0x10, 0xc62a_a340) { Shifts(); }

  lemma Round1()
    ensures Abc(0xf859_ad7a, 0x4bc_57ae, 0x40dd_dd7e) == Mix(Abc(0x5123_2e53, 0x4e11_322d, 0x3fce_247f))
  {
    Xor1a();
    Rol1a();
    Xor1b();
    Rol1b();
    Xor1c();
    Rol1c();
    Xor1d();
    Rol1d();
    Xor1e();
    Rol1e();
    Xor1f();
    Rol1f();
    MixTraced(0x5123_2e53, 0x4e11_322d, 0x3fce_247f, 0x8ddf_56ac, 0x7b96_a4d3, 0x8921_12d0, 0x935a_2872, 0xf859_ad7a,
              0x4bc_57ae, 0xfce2_47f3, 0x1155_09d4, 0xedb7_4e27, 0x6dd3_89fb, 0x6059_e406, 0xd8a_6dfd, 0x8a6d_fd0d,
              0x8054_e8af, 0xa39_15a2, 0x15a2_0a39, 0x715d_8f31, 0x64ff_8508, 0x2843_27fc, 0x2421_8dc8, 0xc62_aa34,
              0xc62a_a340, 0x86f7_7e3e, 0x40dd_dd7e);
  }

  // Round 2: the operands and results of its lines.

  lemma Xor2a() ensures Digits(0xc936_bb4a, 0x2435_69ea) == 0xed03_d2a0 {}
  lemma Rol2a() ensures Rotates(0xa243_569e, 4, 0x10, 0x2435_69ea) { Shifts(); }
  lemma Xor2b() ensures Digits(0x861d_fb73, 0x40f4_a83b) == 0xc6e9_5348 {}
  lemma Rol2b() ensures Rotates(0xed03_d2a0, 6, 0x40, 0x40f4_a83b) { Shifts(); }
  lemma Xor2c() ensures Digits(0x4e7b_d169, 0xe953_48c6) == 0xa728_99af {}
  lemma Rol2c() ensures Rotates(0xc6e9_5348, 8, 0x100, 0xe953_48c6) { Shifts(); }
  lemma Xor2d() ensures Digits(0x5b40_5da2, 0x99af_a728) == 0xc2ef_fa8a {}
  lemma Rol2d() ensures Rotates(0xa728_99af, 16, 0x1_0000, 0x99af_a728) { Shifts(); }
  lemma Xor2e() ensures Digits(0x662_500f, 0xd456_177f) == 0xd234_4770 {}
  lemma Rol2e() ensures Rotates(0xc2ef_fa8a, 19, 0x8_0000, 0xd456_177f) { Shifts(); }
  lemma Xor2f() ensures Digits(0x9e46_9cd8, 0x2344_770d) == 0xbd02_ebd5 {}
  lemma Rol2f() ensures Rotates(0xd234_4770, 4, 0x10, 0x2344_770d) { Shifts(); }

  lemma Round2()
    ensures Abc(0x336a_ded2, 0x59f_2642, 0xbd02_ebd5) == Mix(Abc(0x6b7a_11e8, 0x7321_ce13, 0xa243_569e))
  {
    Xor2a();
    Rol2a();
    Xor2b();
    Rol2b();
    Xor2c();
    Rol2c();
    Xor2d();
    Rol2d();
    Xor2e();
    Rol2e();
    Xor2f();
    Rol2f();
    MixTraced(0x6b7a_11e8, 0x7321_ce13, 0xa243_569e, 0x1565_24b1, 0x268_f751, 0xc952_4a99, 0x707a_e448, 0x336a_ded2,
              0x59f_2642, 0x2435_69ea, 0xc936_bb4a, 0xed03_d2a0, 0x40f4_a83b, 0x861d_fb73, 0xc6e9_5348, 0xe953_48c6,
              0x4e7b_d169, 0xa728_99af, 0x99af_a728, 0x5b40_5da2, 0xc2ef_fa8a, 0xd456_177f, 0x662_500f, 0xd234_4770,
              0x2344_770d, 0x9e46_9cd8, 0xbd02_ebd5);
  }

  // Round 3: the operands and results of its lines.

  lemma Xor3a() ensures Digits(0xbd02_ebd5, 0x59f_95a9) == 0xb89d_7e7c {}
  lemma Rol3a() ensures Rotates(0x59f_95a9, 14, 0x4000, 0xe56a_4167) { Shifts(); }
  lemma Xor3b() ensures Digits(0x948b_5244, 0xd333_3d15) == 0x47b8_6f51 {}
  lemma Rol3b() ensures Rotates(0xd333_3d15, 11, 0x800, 0x99e8_ae99) { Shifts(); }
  lemma Xor3c() ensures Digits(0x59f_95a9, 0xadcf_c0b8) == 0xa850_5511 {}
  lemma Rol3c() ensures Rotates(0xadcf_c0b8, 25, 0x200_0000, 0x715b_9f81) { Shifts(); }
  lemma Xor3d() ensures Digits(0xd333_3d15, 0x36f4_b590) == 0xe5c7_8885 {}
  lemma Rol3d() ensures Rotates(0x36f4_b590, 16, 0x1_0000, 0xb590_36f4) { Shifts(); }
  lemma Xor3e() ensures Digits(0xadcf_c0b8, 0x3037_5191) == 0x9df8_9129 {}
  lemma Rol3e() ensures Rotates(0x3037_5191, 4, 0x10, 0x375_1913) { Shifts(); }
  lemma Xor3f() ensures Digits(0x36f4_b590, 0x9a83_7816) == 0xac77_cd86 {}
  lemma Rol3f() ensures Rotates(0x9a83_7816, 14, 0x4000, 0xde05_a6a0) { Shifts(); }
  lemma Xor3g() ensures Digits(0x3037_5191, 0xce72_26e6) == 0xfe45_7777 {}
  lemma Rol3g() ensures Rotates(0xce72_26e6, 24, 0x100_0000, 0xe6ce_7226) { Shifts(); }

  lemma Round3()
    ensures Abc(0x9a83_7816, 0xce72_26e6, 0x1777_0551) == Final(Abc(0x948b_5244, 0x59f_95a9, 0xbd02_ebd5))
  {
    Xor3a();
    Rol3a();
    Xor3b();
    Rol3b();
    Xor3c();
    Rol3c();
    Xor3d();
    Rol3d();
    Xor3e();
    Rol3e();
    Xor3f();
    Rol3f();
    Xor3g();
    Rol3g();
    FinalTraced(0x948b_5244, 0x59f_95a9, 0xbd02_ebd5, 0xe56a_4167, 0xb89d_7e7c, 0xd333_3d15, 0x99e8_ae99, 0x47b8_6f51,
                0xadcf_c0b8, 0x715b_9f81, 0xa850_5511, 0x36f4_b590, 0xb590_36f4, 0xe5c7_8885, 0x3037_5191, 0x375_1913,
                0x9df8_9129, 0x9a83_7816, 0xde05_a6a0, 0xac77_cd86, 0xce72_26e6, 0xe6ce_7226, 0xfe45_7777,
                0x1777_0551);
  }

  // ----- The phrase.

  const PHRASE: string := "Four score and seven years ago"

  // The bytes of a text whose characters all have one.
  function Ascii(text: string): seq<Byte>
    requires forall i :: 0 <= i < |text| ==> text[i] as nat <= 0xff
  {
    seq(|text|, i requires 0 <= i < |text| => text[i] as nat)
  }

  lemma PhraseWords()
    ensures |PHRASE| == 30 && Words(Ascii(PHRASE)) == [0x7275_6f46, 0x6f63_7320, 0x6120_6572, 0x7320_646e,
                                                       0x6e65_7665, 0x6165_7920, 0x6120_7372, 0x6f67]
  {
    var words := Words(Ascii(PHRASE));
    FrontWords();
    BackWords();
    assert |words| == 8;
    forall j | 0 <= j < 8
      ensures words[j] == WordAt(Ascii(PHRASE), 4 * j)
    {
    }
  }

  lemma FrontWords()
    ensures WordAt(Ascii(PHRASE), 0) == 0x7275_6f46
    ensures WordAt(Ascii(PHRASE), 4) == 0x6f63_7320
    ensures WordAt(Ascii(PHRASE), 8) == 0x6120_6572
    ensures WordAt(Ascii(PHRASE), 12) == 0x7320_646e
  {
  }

  lemma BackWords()
    ensures WordAt(Ascii(PHRASE), 16) == 0x6e65_7665
    ensures WordAt(Ascii(PHRASE), 20) == 0x6165_7920
    ensures WordAt(Ascii(PHRASE), 24) == 0x6120_7372
    ensures WordAt(Ascii(PHRASE), 28) == 0x6f67
  {
  }

  // Eight words are hashed in three rounds.
  lemma EightWords(words: seq<UINT>, s: Abc, t: Abc, u: Abc, v: Abc)
    requires |words| == 8 && Mix(Absorb(s, words)) == t && Mix(Absorb(t, words[3..])) == u
    requires Final(Absorb(u, words[6..])) == v
    ensures HashFrom(words, s) == v.c
  {
    assert words[3..][3..] == words[6..];
    LastRound(words[6..], u);
    MixRound(words[3..], t);
    MixRound(words, s);
  }

  lemma MixRound(words: seq<UINT>, s: Abc)
    requires |words| > 3
    ensures HashFrom(words, s) == HashFrom(words[3..], Mix(Absorb(s, words)))
  {
  }

  lemma LastRound(words: seq<UINT>, s: Abc)
    requires 0 < |words| <= 3
    ensures HashFrom(words, s) == Final(Absorb(s, words)).c
  {
  }

  /** The phrase hashes to the value published for it: every shift count, the order of the lines, the byte order, the padding
      and the start value are those of lookup3. */
  lemma PublishedValue()
    ensures |PHRASE| == 30 && Hash(Words(Ascii(PHRASE)), Seed(30, 0)) == 0x1777_0551
  {
    PhraseWords();
    var words := Words(Ascii(PHRASE));
    var s, t, u, v := Abc(0xdead_bf0d, 0xdead_bf0d, 0xdead_bf0d), Abc(0xf859_ad7a, 0x4bc_57ae, 0x40dd_dd7e),
                      Abc(0x336a_ded2, 0x59f_2642, 0xbd02_ebd5), Abc(0x9a83_7816, 0xce72_26e6, 0x1777_0551);
    assert Absorb(s, words) == Abc(0x5123_2e53, 0x4e11_322d, 0x3fce_247f);
    assert Absorb(t, words[3..]) == Abc(0x6b7a_11e8, 0x7321_ce13, 0xa243_569e);
    assert Absorb(u, words[6..]) == Abc(0x948b_5244, 0x59f_95a9, 0xbd02_ebd5);
    Round1();
    Round2();
    Round3();
    EightWords(words, s, t, u, v);
  }
}
