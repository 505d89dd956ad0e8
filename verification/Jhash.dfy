/**
 The Jenkins hash in its byte-wise and its word-wise form, on a little-endian machine, against one hash of a word
 sequence.
 */
module Jhash {
  import opened Bits

  type UINT = x: nat | x <= 0xffff_ffff
  const JHASH_INITVAL: UINT := 0xdeadbeef

  // NUM_Rol32: the high k bits come in at the low end.
  function Rol32(x: UINT, k: nat): UINT
    requires k < 32
  {
    U32(x * Pow2(k) + x / Pow2(32 - k))
  }

  // The low part goes up and the high part comes in below it.
  lemma RolParts(x: int, h: int, l: int, p: int, q: int)
    requires x == l + q * h && 0 <= l < q && 0 <= h < p && p * q == WORD
    ensures x / q == h && U32(x * p + h) == h + p * l
  {
    DivModUnique(x, q, h, l);
    assert x * p + h == h * WORD + (h + p * l) by { assert (l + q * h) * p == p * l + h * (p * q); }
    assert 0 <= h + p * l < WORD by { InLap(p, q, l, h); }
    DivModUnique(x * p + h, WORD, h, h + p * l);
  }

  lemma InLap(p: int, q: int, l: int, h: int)
    requires 0 <= l < q && 0 <= h < p
    ensures 0 <= h + p * l < p * q
  {
    assert p * q == p * l + p * (q - l);
    assert p * (q - l) == p + p * (q - l - 1);
    assert p * (q - l - 1) >= 0 && p * l >= 0;
  }

  lemma HighPartBelow(x: int, p: int, q: int)
    requires 0 <= x < p * q && p > 0 && q > 0
    ensures 0 <= x / q < p
  {
    MultipleBound(x / q - p, q);
    assert (x / q) * q == (x / q - p) * q + p * q;
  }

  /** NUM_Rol32 is a rotation to the left: bit i goes to place i + k modulo 32. */
  lemma RolBit(x: UINT, k: nat, i: nat)
    requires k < 32 && i < 32
    ensures Bit(Rol32(x, k), (i + k) % 32) <==> Bit(x, i)
  {
    var p, q := Pow2(k), Pow2(32 - k);
    assert p * q == WORD by { Pow2Add(k, 32 - k); Pow2_32(); }
    HighPartBelow(x, p, q);
    RotatedBit(x, k, 32 - k, x / q, x % q, i, (i + k) % 32);
    RolParts(x, x / q, x % q, p, q);
  }

  lemma RotatedBit(x: nat, k: nat, m: nat, h: nat, l: nat, i: nat, j: nat)
    requires k + m == 32 && m > 0 && i < 32 && j == (i + k) % 32
    requires x == l + Pow2(m) * h && l < Pow2(m) && h < Pow2(k)
    ensures Bit(h + Pow2(k) * l, j) <==> Bit(x, i)
  {
    BitOfSums(l, h, m, i);
    BitOfSums(h, l, k, j);
  }

  /** `^` compares bit by bit. */
  lemma Xor32Bit(x: UINT, y: UINT, i: nat)
    ensures Bit(Xor32(x, y), i) <==> Bit(x, i) != Bit(y, i)
  {
    XorBit(x, y, i);
  }

  function Add(x: UINT, y: UINT): UINT {
    U32((x as int) + (y as int))
  }

  function Sub(x: UINT, y: UINT): UINT {
    U32((x as int) - (y as int))
  }

  function Xor32(x: UINT, y: UINT): UINT {
    Pow2_32();
    XorBelow(x, y, 32);
    Xor(x, y)
  }

  lemma Xor32Twice(x: UINT, y: UINT)
    ensures Xor32(Xor32(x, y), y) == x
  {
    XorTwice(x, y);
  }

  datatype Abc = Abc(a: UINT, b: UINT, c: UINT)

  // ----- The two mixers. Each line of the C macros changes two variables (MIX) or one (FINAL).

  function MixX(x: UINT, y: UINT, k: nat): UINT
    requires k < 32
  {
    Xor32(Sub(x, y), Rol32(y, k))
  }

  function UnmixX(x: UINT, y: UINT, k: nat): UINT
    requires k < 32
  {
    Add(Xor32(x, Rol32(y, k)), y)
  }

  // JHASH_MIX
  function Mix(s: Abc): Abc {
    var (a1, c1) := (MixX(s.a, s.c, 4), Add(s.c, s.b));
    var (b1, a2) := (MixX(s.b, a1, 6), Add(a1, c1));
    var (c2, b2) := (MixX(c1, b1, 8), Add(b1, a2));
    var (a3, c3) := (MixX(a2, c2, 16), Add(c2, b2));
    var (b3, a4) := (MixX(b2, a3, 19), Add(a3, c3));
    var (c4, b4) := (MixX(c3, b3, 4), Add(b3, a4));
    Abc(a4, b4, c4)
  }

  function Unmix(s: Abc): Abc {
    var b3 := Sub(s.b, s.a);
    var c3 := UnmixX(s.c, b3, 4);
    var a3 := Sub(s.a, c3);
    var b2 := UnmixX(b3, a3, 19);
    var c2 := Sub(c3, b2);
    var a2 := UnmixX(a3, c2, 16);
    var b1 := Sub(b2, a2);
    var c1 := UnmixX(c2, b1, 8);
    var a1 := Sub(a2, c1);
    var b := UnmixX(b1, a1, 6);
    var c := Sub(c1, b);
    Abc(UnmixX(a1, c, 4), b, c)
  }

  function FinalX(x: UINT, y: UINT, k: nat): UINT
    requires k < 32
  {
    Sub(Xor32(x, y), Rol32(y, k))
  }

  function UnfinalX(x: UINT, y: UINT, k: nat): UINT
    requires k < 32
  {
    Xor32(Add(x, Rol32(y, k)), y)
  }

  // JHASH_FINAL
  function Final(s: Abc): Abc {
    var c1 := FinalX(s.c, s.b, 14);
    var a1 := FinalX(s.a, c1, 11);
    var b1 := FinalX(s.b, a1, 25);
    var c2 := FinalX(c1, b1, 16);
    var a2 := FinalX(a1, c2, 4);
    var b2 := FinalX(b1, a2, 14);
    var c3 := FinalX(c2, b2, 24);
    Abc(a2, b2, c3)
  }

  function Unfinal(s: Abc): Abc {
    var c2 := UnfinalX(s.c, s.b, 24);
    var b1 := UnfinalX(s.b, s.a, 14);
    var a1 := UnfinalX(s.a, c2, 4);
    var c1 := UnfinalX(c2, b1, 16);
    var b := UnfinalX(b1, a1, 25);
    var a := UnfinalX(a1, c1, 11);
    Abc(a, b, UnfinalX(c1, b, 14))
  }

  lemma AddInverse(x: UINT, y: UINT)
    ensures Sub(Add(x, y), y) == x && Add(Sub(x, y), y) == x
  {
  }

  lemma MixInverse(x: UINT, y: UINT, k: nat)
    requires k < 32
    ensures UnmixX(MixX(x, y, k), y, k) == x && MixX(UnmixX(x, y, k), y, k) == x
  {
    Xor32Twice(Sub(x, y), Rol32(y, k));
    Xor32Twice(x, Rol32(y, k));
    AddInverse(x, y);
    AddInverse(Xor32(x, Rol32(y, k)), y);
  }

  lemma FinalInverse(x: UINT, y: UINT, k: nat)
    requires k < 32
    ensures UnfinalX(FinalX(x, y, k), y, k) == x && FinalX(UnfinalX(x, y, k), y, k) == x
  {
    AddInverse(Xor32(x, y), Rol32(y, k));
    AddInverse(x, Rol32(y, k));
    Xor32Twice(x, y);
    Xor32Twice(Add(x, Rol32(y, k)), y);
  }

  /** JHASH_MIX and JHASH_FINAL lose no information: both are permutations of the state. */
  lemma MixIsPermutation(s: Abc)
    ensures Unmix(Mix(s)) == s && Mix(Unmix(s)) == s
  {
    MixLines(s);
    UnmixLines(s);
  }

  lemma MixLines(s: Abc)
    ensures Unmix(Mix(s)) == s
  {
    var (a1, c1) := (MixX(s.a, s.c, 4), Add(s.c, s.b));
    var (b1, a2) := (MixX(s.b, a1, 6), Add(a1, c1));
    var (c2, b2) := (MixX(c1, b1, 8), Add(b1, a2));
    var (a3, c3) := (MixX(a2, c2, 16), Add(c2, b2));
    var (b3, a4) := (MixX(b2, a3, 19), Add(a3, c3));
    AddInverse(b3, a4);
    MixInverse(c3, b3, 4);
    AddInverse(a3, c3);
    MixInverse(b2, a3, 19);
    AddInverse(c2, b2);
    MixInverse(a2, c2, 16);
    AddInverse(b1, a2);
    MixInverse(c1, b1, 8);
    AddInverse(a1, c1);
    MixInverse(s.b, a1, 6);
    AddInverse(s.c, s.b);
    MixInverse(s.a, s.c, 4);
  }

  lemma UnmixLines(s: Abc)
    ensures Mix(Unmix(s)) == s
  {
    var b3 := Sub(s.b, s.a);
    AddInverse(s.b, s.a);
    var c3 := UnmixX(s.c, b3, 4);
    MixInverse(s.c, b3, 4);
    var a3 := Sub(s.a, c3);
    AddInverse(s.a, c3);
    var b2 := UnmixX(b3, a3, 19);
    MixInverse(b3, a3, 19);
    var c2 := Sub(c3, b2);
    AddInverse(c3, b2);
    var a2 := UnmixX(a3, c2, 16);
    MixInverse(a3, c2, 16);
    var b1 := Sub(b2, a2);
    AddInverse(b2, a2);
    var c1 := UnmixX(c2, b1, 8);
    MixInverse(c2, b1, 8);
    var a1 := Sub(a2, c1);
    AddInverse(a2, c1);
    var b := UnmixX(b1, a1, 6);
    MixInverse(b1, a1, 6);
    AddInverse(c1, b);
    MixInverse(a1, Sub(c1, b), 4);
  }

  lemma FinalIsPermutation(s: Abc)
    ensures Unfinal(Final(s)) == s && Final(Unfinal(s)) == s
  {
    FinalLines(s);
    UnfinalLines(s);
  }

  lemma FinalLines(s: Abc)
    ensures Unfinal(Final(s)) == s
  {
    var c1 := FinalX(s.c, s.b, 14);
    var a1 := FinalX(s.a, c1, 11);
    var b1 := FinalX(s.b, a1, 25);
    var c2 := FinalX(c1, b1, 16);
    var a2 := FinalX(a1, c2, 4);
    var b2 := FinalX(b1, a2, 14);
    FinalInverse(c2, b2, 24);
    FinalInverse(b1, a2, 14);
    FinalInverse(a1, c2, 4);
    FinalInverse(c1, b1, 16);
    FinalInverse(s.b, a1, 25);
    FinalInverse(s.a, c1, 11);
    FinalInverse(s.c, s.b, 14);
  }

  lemma UnfinalLines(s: Abc)
    ensures Final(Unfinal(s)) == s
  {
    var c2 := UnfinalX(s.c, s.b, 24);
    FinalInverse(s.c, s.b, 24);
    var b1 := UnfinalX(s.b, s.a, 14);
    FinalInverse(s.b, s.a, 14);
    var a1 := UnfinalX(s.a, c2, 4);
    FinalInverse(s.a, c2, 4);
    var c1 := UnfinalX(c2, b1, 16);
    FinalInverse(c2, b1, 16);
    var b := UnfinalX(b1, a1, 25);
    FinalInverse(b1, a1, 25);
    FinalInverse(a1, c1, 11);
    FinalInverse(c1, b, 14);
  }

  // ----- The hash of a word sequence.

  // The first words of a sequence, added to the state.
  function Absorb(s: Abc, words: seq<UINT>): Abc {
    Abc(if |words| > 0 then Add(s.a, words[0]) else s.a,
        if |words| > 1 then Add(s.b, words[1]) else s.b,
        if |words| > 2 then Add(s.c, words[2]) else s.c)
  }

  function HashFrom(words: seq<UINT>, s: Abc): UINT {
    if |words| > 3 then HashFrom(words[3..], Mix(Absorb(s, words)))
    else if words == [] then s.c
    else Final(Absorb(s, words)).c
  }

  function Hash(words: seq<UINT>, seed: UINT): UINT {
    HashFrom(words, Abc(seed, seed, seed))
  }

  // The start value for a buffer of `length` bytes.
  function Seed(length: nat, initval: UINT): UINT {
    U32(JHASH_INITVAL + length + initval)
  }

  lemma SeedWord(length: nat, initval: UINT)
    ensures U32(U32(length) + (JHASH_INITVAL + initval)) == Seed(length, initval)
  {
    ModAdd(length, JHASH_INITVAL + initval);
  }

  // The little-endian load of four bytes.
  function Load(b0: Byte, b1: Byte, b2: Byte, b3: Byte): UINT {
    (b0 as int) + (b1 as int) * 0x100 + (b2 as int) * 0x1_0000 + (b3 as int) * 0x100_0000
  }

  function ByteAt(key: seq<Byte>, i: nat): Byte {
    if i < |key| then key[i] else 0
  }

  // The four bytes at `from`, with zero bytes behind the end of the buffer.
  function WordAt(key: seq<Byte>, from: nat): UINT {
    Load(ByteAt(key, from), ByteAt(key, from + 1), ByteAt(key, from + 2), ByteAt(key, from + 3))
  }

  // The little-endian words of a byte buffer, the last one padded with zero bytes.
  function Words(key: seq<Byte>): (words: seq<UINT>)
  {
    seq((|key| + 3) / 4, i requires 0 <= i => WordAt(key, 4 * i))
  }

  // Byte j of a word in the memory of a little-endian machine.
  function ByteOf(w: UINT, j: nat): Byte {
    (w / (if j == 0 then 1 else if j == 1 then 0x100 else if j == 2 then 0x1_0000 else 0x100_0000)) % 0x100
  }

  lemma LoadedBytes(b0: Byte, b1: Byte, b2: Byte, b3: Byte)
    ensures var w := Load(b0, b1, b2, b3);
            ByteOf(w, 0) == b0 && ByteOf(w, 1) == b1 && ByteOf(w, 2) == b2 && ByteOf(w, 3) == b3
  {
    var w: int := Load(b0, b1, b2, b3);
    var h2: int := b2 + 0x100 * b3;
    var h1: int := b1 + 0x100 * h2;
    assert w == h1 * 0x100 + b0 == h2 * 0x1_0000 + (b0 + 0x100 * b1);
    DivModUnique(w, 0x100, h1, b0);
    DivModUnique(h1, 0x100, h2, b1);
    DivModUnique(w, 0x1_0000, h2, b0 + 0x100 * b1);
    DivModUnique(h2, 0x100, b3, b2);
    DivModUnique(w, 0x100_0000, b3, b0 + 0x100 * b1 + 0x1_0000 * b2);
  }

  /** The words hold the bytes of the buffer in order, and zeros behind its end. */
  lemma WordsHoldTheBytes(key: seq<Byte>, i: nat)
    requires i < 4 * |Words(key)|
    ensures ByteOf(Words(key)[i / 4], i % 4) == if i < |key| then key[i] else 0
    ensures |key| <= 4 * |Words(key)| < |key| + 4
  {
    assert Words(key)[i / 4] == WordAt(key, 4 * (i / 4));
    WordHoldsBytes(key, 4 * (i / 4), i % 4);
  }

  lemma WordHoldsBytes(key: seq<Byte>, from: nat, j: nat)
    requires j < 4
    ensures ByteOf(WordAt(key, from), j) == ByteAt(key, from + j)
  {
    LoadedBytes(ByteAt(key, from), ByteAt(key, from + 1), ByteAt(key, from + 2), ByteAt(key, from + 3));
  }

  // ----- The two forms.

  // The switch of JHASH_U32Buffer on the last words.
  method LastU32(rest: seq<UINT>, s: Abc) returns (c: UINT)
    requires |rest| <= 3
    ensures c == HashFrom(rest, s)
  {
    var a, b := s.a, s.b;
    c := s.c;
    if |rest| == 3 {
      c := Add(c, rest[2]);
    }
    if |rest| >= 2 {
      b := Add(b, rest[1]);
    }
    if |rest| >= 1 {
      a := Add(a, rest[0]);
      assert Abc(a, b, c) == Absorb(s, rest);
      c := Final(Abc(a, b, c)).c;
    }
  }

  /** JHASH_U32Buffer */
  method U32Buffer(k: seq<UINT>, initval: UINT) returns (c: UINT)
    ensures c == Hash(k, Seed(4 * |k|, initval))
  {
    var seed: UINT := U32(U32(4 * |k|) + (JHASH_INITVAL + initval));
    assert seed == Seed(4 * |k|, initval) by { SeedWord(4 * |k|, initval); }
    c := U32Loop(k, seed);
  }

  method U32Loop(k: seq<UINT>, seed: UINT) returns (c: UINT)
    ensures c == Hash(k, seed)
  {
    var rest := k;
    var s := Abc(seed, seed, seed);
    while |rest| > 3
      invariant HashFrom(rest, s) == Hash(k, seed)
      decreases |rest|
    {
      s := Mix(Abc(Add(s.a, rest[0]), Add(s.b, rest[1]), Add(s.c, rest[2])));
      rest := rest[3..];
    }
    c := LastU32(rest, s);
  }

  // Dropping twelve bytes drops three words.
  lemma WordsDrop(key: seq<Byte>)
    requires |key| > 12
    ensures |Words(key)| > 3 && Words(key)[3..] == Words(key[12..])
  {
    forall i | 0 <= i < |Words(key[12..])|
      ensures Words(key)[3..][i] == Words(key[12..])[i]
    {
      assert Words(key)[3 + i] == WordAt(key, 4 * (3 + i));
      SameWord(key, 4 * i);
    }
  }

  lemma SameWord(key: seq<Byte>, from: nat)
    requires |key| > 12
    ensures WordAt(key, 12 + from) == WordAt(key[12..], from)
  {
  }

  // Up to twelve bytes are up to three words.
  lemma LastWords(k: seq<Byte>, s: Abc)
    requires |k| <= 12
    ensures Absorb(s, Words(k)) == Abc(if 0 < |k| then Add(s.a, WordAt(k, 0)) else s.a,
                                       if 4 < |k| then Add(s.b, WordAt(k, 4)) else s.b,
                                       if 8 < |k| then Add(s.c, WordAt(k, 8)) else s.c)
  {
    var words := Words(k);
    if 0 < |k| { assert words[0] == WordAt(k, 0); }
    if 4 < |k| { assert words[1] == WordAt(k, 4); }
    if 8 < |k| { assert words[2] == WordAt(k, 8); }
  }

  // The switch of JHASH_GeneralBuffer on the last bytes.
  method LastBytes(k: seq<Byte>, s: Abc) returns (c: UINT)
    requires |k| <= 12
    ensures c == HashFrom(Words(k), s)
  {
    if |k| == 0 {
      return s.c;
    }
    LastWords(k, s);
    c := AddBytes(s.c, k, 8);
    var b := AddBytes(s.b, k, 4);
    var a := AddBytes(s.a, k, 0);
    c := Final(Abc(a, b, c)).c;
  }

  lemma ThreeWords(k: seq<Byte>, s: Abc)
    requires |k| > 12
    ensures HashFrom(Words(k), s) ==
              HashFrom(Words(k[12..]), Mix(Abc(Add(s.a, Load(k[0], k[1], k[2], k[3])),
                                               Add(s.b, Load(k[4], k[5], k[6], k[7])),
                                               Add(s.c, Load(k[8], k[9], k[10], k[11])))))
  {
    WordsDrop(k);
    var words := Words(k);
    assert words[0] == WordAt(k, 0) && words[1] == WordAt(k, 4) && words[2] == WordAt(k, 8);
  }

  /** JHASH_GeneralBuffer hashes the padded little-endian words of the buffer. */
  method GeneralBuffer(key: seq<Byte>, initval: UINT) returns (c: UINT)
    ensures c == Hash(Words(key), Seed(|key|, initval))
  {
    var seed: UINT := U32(U32(|key|) + (JHASH_INITVAL + initval));
    assert seed == Seed(|key|, initval) by { SeedWord(|key|, initval); }
    c := ByteLoop(key, seed);
  }

  method ByteLoop(key: seq<Byte>, seed: UINT) returns (c: UINT)
    ensures c == Hash(Words(key), seed)
  {
    var k := key;
    var s := Abc(seed, seed, seed);
    while |k| > 12
      invariant HashFrom(Words(k), s) == Hash(Words(key), seed)
      decreases |k|
    {
      ThreeWords(k, s);
      s := Mix(Abc(Add(s.a, Load(k[0], k[1], k[2], k[3])),
                   Add(s.b, Load(k[4], k[5], k[6], k[7])),
                   Add(s.c, Load(k[8], k[9], k[10], k[11]))));
      k := k[12..];
    }
    c := LastBytes(k, s);
  }

  // Four cases of the switch: add those bytes of a word that are there, from the top down.
  method AddBytes(x: UINT, key: seq<Byte>, from: nat) returns (r: UINT)
    ensures r == if from < |key| then Add(x, WordAt(key, from)) else x
  {
    r := x;
    ghost var total: int := x;
    if |key| > from + 3 { r, total := AddPart(r, (key[from + 3] as int) * 0x100_0000, total); }
    if |key| > from + 2 { r, total := AddPart(r, (key[from + 2] as int) * 0x1_0000, total); }
    if |key| > from + 1 { r, total := AddPart(r, (key[from + 1] as int) * 0x100, total); }
    if |key| > from { r, total := AddPart(r, key[from], total); }
  }

  method AddPart(x: UINT, part: UINT, ghost total: int) returns (r: UINT, ghost total': int)
    requires x == U32(total)
    ensures r == U32(total + part) && total' == total + part
  {
    ModAdd(total, part);
    r := Add(x, part);
    total' := total + part;
  }

  /** JHASH_Buffer is one function whichever path it takes. */
  method Buffer(key: seq<Byte>, initval: UINT) returns (c: UINT)
    ensures c == Hash(Words(key), Seed(|key|, initval))
  {
    if |key| % 4 == 0 {
      assert 4 * |Words(key)| == |key|;
      c := U32Buffer(Words(key), initval);
    } else {
      c := GeneralBuffer(key, initval);
    }
  }

  // _jhash_nwords
  function NWords(a: UINT, b: UINT, c: UINT, initval: UINT): UINT {
    Final(Abc(Add(a, initval), Add(b, initval), Add(c, initval))).c
  }

  // JHASH_3Words, JHASH_2Words, JHASH_Word
  function Hash3Words(a: UINT, b: UINT, c: UINT, initval: UINT): UINT {
    NWords(a, b, c, U32(initval + JHASH_INITVAL + 12))
  }

  function Hash2Words(a: UINT, b: UINT, initval: UINT): UINT {
    NWords(a, b, 0, U32(initval + JHASH_INITVAL + 8))
  }

  function HashWord(a: UINT, initval: UINT): UINT {
    NWords(a, 0, 0, U32(initval + JHASH_INITVAL + 4))
  }

  /** The fixed-length forms are the buffer form on three, two and one words. */
  lemma ThreeWordsForm(a: UINT, b: UINT, c: UINT, initval: UINT)
    ensures Hash3Words(a, b, c, initval) == Hash([a, b, c], Seed(12, initval))
  {
    var s := Seed(12, initval);
    assert Absorb(Abc(s, s, s), [a, b, c]) == Abc(Add(a, s), Add(b, s), Add(c, s));
  }

  lemma TwoWordsForm(a: UINT, b: UINT, initval: UINT)
    ensures Hash2Words(a, b, initval) == Hash([a, b], Seed(8, initval))
  {
    var s := Seed(8, initval);
    assert Absorb(Abc(s, s, s), [a, b]) == Abc(Add(a, s), Add(b, s), Add(0, s));
  }

  lemma OneWordForm(a: UINT, initval: UINT)
    ensures HashWord(a, initval) == Hash([a], Seed(4, initval))
  {
    var s := Seed(4, initval);
    assert Absorb(Abc(s, s, s), [a]) == Abc(Add(a, s), Add(0, s), Add(0, s));
  }
}
