/**
 IPv6 prefixes (section 2.3 of RFC 4291) on 16 bytes in network order: the mask of a prefix length, the prefix of an
 address, and the bytewise comparison, against 128-bit numbers.
 */
module In6Prefix {
  import opened Bits

  // The number written by bytes in network order.
  function Number(bytes: seq<Byte>): nat
    decreases |bytes|
  {
    if bytes == [] then 0 else Number(bytes[..|bytes| - 1]) * 256 + bytes[|bytes| - 1]
  }

  lemma {:induction false} NumberBelow(bytes: seq<Byte>)
    ensures Number(bytes) < Pow2(8 * |bytes|)
    decreases |bytes|
  {
    if bytes == [] {
    } else {
      NumberBelow(bytes[..|bytes| - 1]);
      Shift8(|bytes| - 1);
    }
  }

  lemma Shift8(n: nat)
    ensures Pow2(8 * (n + 1)) == Pow2(8 * n) * 256
  {
    Pow2_8();
    Pow2Add(8 * n, 8);
  }

  lemma {:induction false} NumberConcat(a: seq<Byte>, b: seq<Byte>)
    ensures Number(a + b) == Number(a) * Pow2(8 * |b|) + Number(b)
    decreases |b|
  {
    if b == [] {
      assert a + b == a && Pow2(0) == 1;
    } else {
      var n := |b| - 1;
      NumberConcat(a, b[..n]);
      assert (a + b)[..|a + b| - 1] == a + b[..n];
      Shift8(n);
      Scale(Number(a), Pow2(8 * n));
    }
  }

  lemma Scale(x: nat, p: nat)
    ensures (x * p) * 256 == x * (p * 256)
  {
  }

  // Bytewise `&` is `&` of the numbers.
  function AndBytes(a: seq<Byte>, b: seq<Byte>): (r: seq<Byte>)
    requires |a| == |b|
    ensures |r| == |a|
  {
    seq(|a|, i requires 0 <= i < |a| => AndByte(a[i], b[i]))
  }

  // The low k bits of l behind h.
  function Join(h: nat, l: nat, k: nat): nat
    decreases k
  {
    if k == 0 then h else 2 * Join(h, l / 2, k - 1) + l % 2
  }

  lemma {:induction false} JoinValue(h: nat, l: nat, k: nat)
    requires l < Pow2(k)
    ensures Join(h, l, k) == h * Pow2(k) + l
    decreases k
  {
    if k == 0 {
    } else {
      JoinValue(h, l / 2, k - 1);
      Twice(h, Pow2(k - 1), Pow2(k));
    }
  }

  lemma Twice(h: nat, p: nat, q: nat)
    requires q == 2 * p
    ensures h * q == 2 * (h * p)
  {
  }

  lemma ByteJoined(h: nat, byte: Byte, u: nat, k: nat)
    requires k == 8 && u == h * 256 + byte
    ensures u == Join(h, byte, k)
  {
    Pow2_8();
    JoinValue(h, byte, k);
  }

  lemma {:induction false} AndOfJoins(h: nat, l: nat, g: nat, m: nat, k: nat)
    ensures And(Join(h, l, k), Join(g, m, k)) == Join(And(h, g), And(l, m), k)
    decreases k
  {
    if k == 0 {
    } else {
      AndOfJoins(h, l / 2, g, m / 2, k - 1);
      AndStep(Join(h, l, k), Join(g, m, k));
      AndStep(l, m);
    }
  }

  lemma AndStep(x: nat, y: nat)
    ensures And(x, y) / 2 == And(x / 2, y / 2) && (And(x, y) % 2 == 1 <==> x % 2 == 1 && y % 2 == 1)
  {
  }

  lemma AndOfBytes(h: nat, x: Byte, g: nat, y: Byte, u: nat, v: nat, w: nat)
    requires u == h * 256 + x && v == g * 256 + y && w == And(h, g) * 256 + AndByte(x, y)
    ensures And(u, v) == w
  {
    ByteJoined(h, x, u, 8);
    ByteJoined(g, y, v, 8);
    ByteJoined(And(h, g), AndByte(x, y), w, 8);
    SameJoins(h, x, g, y, u, v, w, 8);
  }

  lemma SameJoins(h: nat, x: nat, g: nat, y: nat, u: nat, v: nat, w: nat, k: nat)
    requires u == Join(h, x, k) && v == Join(g, y, k) && w == Join(And(h, g), And(x, y), k)
    ensures And(u, v) == w
  {
    AndOfJoins(h, x, g, y, k);
  }

  lemma {:induction false} AndOfNumbers(a: seq<Byte>, b: seq<Byte>)
    requires |a| == |b|
    ensures Number(AndBytes(a, b)) == And(Number(a), Number(b))
    decreases |a|
  {
    if a == [] {
    } else {
      var n := |a| - 1;
      AndOfNumbers(a[..n], b[..n]);
      assert AndBytes(a, b)[..n] == AndBytes(a[..n], b[..n]);
      AndOfBytes(Number(a[..n]), a[n], Number(b[..n]), b[n], Number(a), Number(b), Number(AndBytes(a, b)));
    }
  }

  // ----- The comparison.

  /** IN6ADDR_Cmp is the order of the 128-bit numbers. */
  method Cmp(a: seq<Byte>, b: seq<Byte>) returns (r: int)
    requires |a| == |b| == 16
    ensures r < 0 <==> Number(a) < Number(b)
    ensures r == 0 <==> Number(a) == Number(b)
    ensures r == 0 <==> a == b
  {
    r := 0;
    var i := 0;
    while i < 16
      invariant 0 <= i <= 16 && a[..i] == b[..i] && r == 0
    {
      r := (a[i] as int) - (b[i] as int);
      if r != 0 {
        if r < 0 {
          FirstDifference(a, b, i);
        } else {
          FirstDifference(b, a, i);
        }
        break;
      }
      i := i + 1;
    }
    if r == 0 {
      assert a == a[..16] && b == b[..16];
    }
  }

  lemma FirstDifference(a: seq<Byte>, b: seq<Byte>, i: nat)
    requires i < |a| == |b| && a[..i] == b[..i] && a[i] < b[i]
    ensures Number(a) < Number(b)
  {
    assert a[..i + 1][..i] == a[..i] && b[..i + 1][..i] == b[..i];
    LessStays(a, b, i + 1);
  }

  // A smaller number stays smaller whatever digits follow.
  lemma {:induction false} LessStays(a: seq<Byte>, b: seq<Byte>, k: nat)
    requires k <= |a| == |b| && Number(a[..k]) < Number(b[..k])
    ensures Number(a) < Number(b)
    decreases |a| - k
  {
    if k == |a| {
      assert a[..k] == a && b[..k] == b;
    } else {
      assert a[..k + 1][..k] == a[..k] && b[..k + 1][..k] == b[..k];
      LessStays(a, b, k + 1);
    }
  }

  // ----- The mask.

  function Repeat(byte: Byte, n: nat): (r: seq<Byte>)
    ensures |r| == n
  {
    if n == 0 then [] else Repeat(byte, n - 1) + [byte]
  }

  lemma {:induction false} OnesAndZeros(n: nat)
    ensures Number(Repeat(0xff, n)) == Pow2(8 * n) - 1 && Number(Repeat(0, n)) == 0
  {
    if n == 0 {
    } else {
      OnesAndZeros(n - 1);
      Shift8(n - 1);
      assert n - 1 + 1 == n;
      LastByte(0xff, n);
      LastByte(0, n);
    }
  }

  lemma LastByte(byte: Byte, n: nat)
    requires n > 0
    ensures Number(Repeat(byte, n)) == Number(Repeat(byte, n - 1)) * 256 + byte
  {
  }

  // The bytes a 32-bit word has in memory after htonl.
  function NetBytes(word: nat): (r: seq<Byte>)
    requires word <= 0xffff_ffff
    ensures |r| == 4
  {
    [word / 0x100_0000, word / 0x1_0000 % 0x100, word / 0x100 % 0x100, word % 0x100]
  }

  lemma FourBytes(b0: Byte, b1: Byte, b2: Byte, b3: Byte)
    ensures Number([b0, b1, b2, b3]) == (((b0 as int) * 256 + b1) * 256 + b2) * 256 + b3
  {
    assert [b0][..0] == [];
    assert Number([b0]) == b0;
    assert [b0, b1][..1] == [b0];
    assert Number([b0, b1]) == (b0 as int) * 256 + b1;
    assert [b0, b1, b2][..2] == [b0, b1];
    assert Number([b0, b1, b2]) == ((b0 as int) * 256 + b1) * 256 + b2;
    assert [b0, b1, b2, b3][..3] == [b0, b1, b2];
  }

  lemma NetBytesNumber(word: nat)
    requires word <= 0xffff_ffff
    ensures Number(NetBytes(word)) == word
  {
    FourBytes(word / 0x100_0000, word / 0x1_0000 % 0x100, word / 0x100 % 0x100, word % 0x100);
    var q1 := word / 0x100;
    var q2 := q1 / 0x100;
    assert q2 == word / 0x1_0000;
    assert q2 / 0x100 == word / 0x100_0000;
  }

  // Storing a word of the mask in network order.
  method StoreWord(mask: array<Byte>, index: nat, word: nat)
    requires mask.Length == 16 && index < 4 && word <= 0xffff_ffff
    modifies mask
    ensures mask[..] == old(mask[..4 * index]) + NetBytes(word) + old(mask[4 * index + 4..])
  {
    forall k | 0 <= k < 4 {
      mask[4 * index + k] := NetBytes(word)[k];
    }
  }

  // `0xffffffff << (32 - bits)` in 32 bits.
  function HighOnes(bits: nat): (word: nat)
    requires 0 < bits < 32
    ensures word == WORD - Pow2(32 - bits) <= 0xffff_ffff
  {
    Pow2_32();
    Pow2Monotone(32 - bits, 32);
    Pow2Add(bits, 32 - bits);
    DroppedBits(Pow2(bits), Pow2(32 - bits));
    U32(0xffff_ffff * Pow2(32 - bits))
  }

  lemma DroppedBits(p: nat, q: nat)
    requires p * q == WORD && p > 0 && q > 0
    ensures U32(0xffff_ffff * q) == WORD - q
  {
    assert 0xffff_ffff * q == (q - 1) * 0x1_0000_0000 + (0x1_0000_0000 - q);
    MultipleBound(p, q);
    DivModUnique(0xffff_ffff * q, 0x1_0000_0000, q - 1, 0x1_0000_0000 - q);
  }

  // The number whose first `len` of `width` bits are set.
  function MaskNumber(width: nat, len: nat): nat
    requires len <= width
  {
    Pow2Monotone(width - len, width);
    Pow2(width) - Pow2(width - len)
  }

  /** IN6ADDR_LenToMask: the mask of a prefix length, as a number, is 2^128 - 2^(128 - len). */
  method LenToMask(len: nat, mask: array<Byte>)
    requires len <= 128 && mask.Length == 16
    modifies mask
    ensures Number(mask[..]) == MaskNumber(8 * mask.Length, len)
  {
    ClearMask(mask);
    var words, bits := len / 32, len % 32;
    FillOnes(mask, words);
    if bits != 0 {
      LastWord(mask, words, bits, len);
    } else {
      WholeWords(mask, words, len);
    }
  }

  lemma WholeWords(mask: array<Byte>, words: nat, len: nat)
    requires mask.Length == 16 && words <= 4 && len == 32 * words
    requires mask[..] == Repeat(0xff, 4 * words) + Repeat(0, 16 - 4 * words)
    ensures Number(mask[..]) == MaskNumber(8 * mask.Length, len)
  {
    WholeMask(4 * words, 16 - 4 * words, mask.Length, len);
  }

  // The word that the prefix covers in part.
  method LastWord(mask: array<Byte>, words: nat, bits: nat, ghost len: nat)
    requires mask.Length == 16 && words < 4 && 0 < bits < 32 && len == 32 * words + bits
    requires mask[..] == Repeat(0xff, 4 * words) + Repeat(0, 16 - 4 * words)
    modifies mask
    ensures Number(mask[..]) == MaskNumber(8 * mask.Length, len)
  {
    BehindOnes(words);
    StoreWord(mask, words, HighOnes(bits));
    PartialMask(4 * words, bits, 12 - 4 * words, mask.Length, len);
    assert mask[..] == Repeat(0xff, 4 * words) + NetBytes(HighOnes(bits)) + Repeat(0, 12 - 4 * words);
  }

  // The loop over the whole words.
  method FillOnes(mask: array<Byte>, words: nat)
    requires mask.Length == 16 && words <= 4 && mask[..] == Repeat(0xff, 0) + Repeat(0, mask.Length)
    modifies mask
    ensures mask[..] == Repeat(0xff, 4 * words) + Repeat(0, 16 - 4 * words)
  {
    for loop := 0 to words
      invariant mask[..] == Repeat(0xff, 4 * loop) + Repeat(0, mask.Length - 4 * loop)
    {
      StoreWord(mask, loop, 0xffff_ffff);
      NextOnes(loop, mask[..]);
    }
  }

  method ClearMask(mask: array<Byte>)
    requires mask.Length == 16
    modifies mask
    ensures mask[..] == Repeat(0xff, 0) + Repeat(0, mask.Length)
  {
    StoreWord(mask, 0, 0);
    StoreWord(mask, 1, 0);
    StoreWord(mask, 2, 0);
    StoreWord(mask, 3, 0);
    SixteenZeros();
  }

  lemma BehindOnes(words: nat)
    requires words < 4
    ensures var m := Repeat(0xff, 4 * words) + Repeat(0, 16 - 4 * words);
            m[..4 * words] == Repeat(0xff, 4 * words) && m[4 * words + 4..] == Repeat(0, 12 - 4 * words)
  {
    RepeatAll(0, 16 - 4 * words);
    RepeatAll(0, 12 - 4 * words);
  }

  lemma SixteenZeros()
    ensures Repeat(0, 16) == NetBytes(0) + NetBytes(0) + NetBytes(0) + NetBytes(0)
  {
    RepeatAll(0, 16);
  }

  lemma {:induction false} RepeatAll(byte: Byte, n: nat)
    ensures forall i :: 0 <= i < n ==> Repeat(byte, n)[i] == byte
  {
    if n == 0 {
    } else {
      RepeatAll(byte, n - 1);
    }
  }

  lemma NextOnes(loop: nat, mask: seq<Byte>)
    requires loop < 4
    requires mask == (Repeat(0xff, 4 * loop) + Repeat(0, 16 - 4 * loop))[..4 * loop] + NetBytes(0xffff_ffff)
                     + (Repeat(0xff, 4 * loop) + Repeat(0, 16 - 4 * loop))[4 * loop + 4..]
    ensures mask == Repeat(0xff, 4 * (loop + 1)) + Repeat(0, 16 - 4 * (loop + 1))
  {
    RepeatAll(0xff, 4 * loop);
    RepeatAll(0xff, 4 * (loop + 1));
    RepeatAll(0, 16 - 4 * loop);
    RepeatAll(0, 16 - 4 * (loop + 1));
  }

  lemma Combine(total: int, head: int, tail: int, a: int, b: int, p: int, ap: int, bp: int)
    requires total == head * p + tail && head == a - b && tail == 0 && ap == a * p && bp == b * p
    ensures total == ap - bp
  {
  }

  // k bytes of ones and n bytes of zeros.
  lemma WholeMask(k: nat, n: nat, size: nat, len: nat)
    requires size == k + n && len == 8 * k
    ensures Number(Repeat(0xff, k) + Repeat(0, n)) == MaskNumber(8 * size, len)
  {
    OnesAndZeros(k);
    assert Pow2(0) == 1;
    PartialTail(Repeat(0xff, k), 8 * k, 0, n, 8 * size, 8 * size - len);
  }

  // k bytes of ones, a word with its high bits set, and n bytes of zeros.
  lemma PartialMask(k: nat, bits: nat, n: nat, size: nat, len: nat)
    requires 0 < bits < 32 && size == k + 4 + n && len == 8 * k + bits
    ensures Number(Repeat(0xff, k) + NetBytes(HighOnes(bits)) + Repeat(0, n))
            == MaskNumber(8 * size, len)
  {
    PartialHead(k, bits);
    PartialTail(Repeat(0xff, k) + NetBytes(HighOnes(bits)), 8 * k + 32, 32 - bits, n, 8 * size, 8 * size - len);
  }

  lemma PartialTail(head: seq<Byte>, high: nat, low: nat, n: nat, a: nat, b: nat)
    requires Number(head) == Pow2(high) - Pow2(low) && a == high + 8 * n && b == low + 8 * n
    ensures Number(head + Repeat(0, n)) == Pow2(a) - Pow2(b)
  {
    AppendZeros(head, high, low, n);
    SameDifference(Number(head + Repeat(0, n)), high, low, n, a, b);
  }

  lemma SameDifference(x: int, high: nat, low: nat, n: nat, a: nat, b: nat)
    requires a == high + 8 * n && b == low + 8 * n
    requires x == Pow2(high + 8 * n) - Pow2(low + 8 * n)
    ensures x == Pow2(a) - Pow2(b)
  {
  }

  lemma AppendZeros(head: seq<Byte>, high: nat, low: nat, n: nat)
    requires Number(head) == Pow2(high) - Pow2(low)
    ensures Number(head + Repeat(0, n)) == Pow2(high + 8 * n) - Pow2(low + 8 * n)
  {
    Shifted(head, n);
    Pow2Add(high, 8 * n);
    Pow2Add(low, 8 * n);
    Combine(Number(head + Repeat(0, n)), Number(head), 0, Pow2(high), Pow2(low), Pow2(8 * n),
            Pow2(high + 8 * n), Pow2(low + 8 * n));
  }

  lemma Shifted(head: seq<Byte>, n: nat)
    ensures Number(head + Repeat(0, n)) == Number(head) * Pow2(8 * n)
  {
    NumberConcat(head, Repeat(0, n));
    OnesAndZeros(n);
  }

  lemma PartialHead(k: nat, bits: nat)
    requires 0 < bits < 32
    ensures Number(Repeat(0xff, k) + NetBytes(HighOnes(bits))) == Pow2(8 * k + 32) - Pow2(32 - bits)
  {
    var ones, net := Repeat(0xff, k), NetBytes(HighOnes(bits));
    NumberConcat(ones, net);
    NetBytesNumber(HighOnes(bits));
    OnesAndZeros(k);
    Pow2_32();
    Pow2Add(8 * k, 32);
    assert 8 * |net| == 32;
    assert Number(ones) * WORD == Pow2(8 * k) * WORD - WORD;
  }

  // ----- The prefix.

  /** IN6ADDR_GetPrefix */
  method GetPrefix(addr: seq<Byte>, mask: seq<Byte>, prefix: array<Byte>)
    requires |addr| == |mask| == prefix.Length == 16
    modifies prefix
    ensures Number(prefix[..]) == And(Number(addr), Number(mask))
  {
    forall i | 0 <= i < 16 {
      prefix[i] := AndByte(addr[i], mask[i]);
    }
    assert prefix[..] == AndBytes(addr, mask);
    AndOfNumbers(addr, mask);
  }

  /** A prefix is one interval of the order, for 128-bit as for any other addresses: an address x has prefix p of the
      given length if and only if x lies between p and the last address of p's block, `p | ~mask`. */
  lemma PrefixIsInterval(x: nat, p: nat, len: nat, width: nat)
    requires len <= width && x < Pow2(width) && p < Pow2(width)
    requires And(p, MaskNumber(width, len)) == p
    ensures And(x, MaskNumber(width, len)) == p <==> p <= x <= Or(p, Pow2(width - len) - 1)
  {
    Masked(x, MaskNumber(width, len), width, len);
    Masked(p, MaskNumber(width, len), width, len);
    InBlock(x, p, width - len, Or(p, Pow2(width - len) - 1));
  }

  lemma {:induction false} NumberInjective(a: seq<Byte>, b: seq<Byte>)
    requires |a| == |b| && Number(a) == Number(b)
    ensures a == b
    decreases |a|
  {
    if a == [] {
    } else {
      var n := |a| - 1;
      NumberInjective(a[..n], b[..n]);
      assert a == a[..n] + [a[n]] && b == b[..n] + [b[n]];
    }
  }

  // p is the first address of its block of 2^k ...
  ghost predicate Starts(p: nat, k: nat) {
    p % Pow2(k) == 0
  }

  // ... and `last`, which is `p | ~mask`, its last one.
  ghost predicate Ends(p: nat, k: nat, last: nat) {
    last == Or(p, Pow2(k) - 1)
  }

  // x lies between p and last in the order of IN6ADDR_Cmp.
  predicate Between(p: seq<Byte>, x: seq<Byte>, last: seq<Byte>) {
    Number(p) <= Number(x) <= Number(last)
  }

  /** The same for the bytes: with the mask of IN6ADDR_LenToMask, IN6ADDR_GetPrefix of x is p exactly for the addresses
      between p and `last`. */
  lemma AddressesOfPrefix(x: seq<Byte>, p: seq<Byte>, mask: seq<Byte>, last: seq<Byte>, len: nat)
    requires |x| == |p| == |mask| == |last| && len <= 8 * |mask|
    requires Number(mask) == MaskNumber(8 * |mask|, len)
    requires AndBytes(p, mask) == p && Ends(Number(p), 8 * |mask| - len, Number(last))
    ensures AndBytes(x, mask) == p <==> Between(p, x, last)
  {
    PrefixStarts(p, mask, len);
    BlockOfPrefix(x, p, mask, last, len);
  }

  lemma PrefixStarts(p: seq<Byte>, mask: seq<Byte>, len: nat)
    requires |p| == |mask| && len <= 8 * |mask| && Number(mask) == MaskNumber(8 * |mask|, len)
    requires AndBytes(p, mask) == p
    ensures Starts(Number(p), 8 * |mask| - len)
  {
    MaskedNumber(p, mask, len);
  }

  lemma BlockOfPrefix(x: seq<Byte>, p: seq<Byte>, mask: seq<Byte>, last: seq<Byte>, len: nat)
    requires |x| == |p| == |mask| && len <= 8 * |mask| && Number(mask) == MaskNumber(8 * |mask|, len)
    requires Starts(Number(p), 8 * |mask| - len) && Ends(Number(p), 8 * |mask| - len, Number(last))
    ensures AndBytes(x, mask) == p <==> Between(p, x, last)
  {
    MaskedNumber(x, mask, len);
    InBlock(Number(x), Number(p), 8 * |mask| - len, Number(last));
    SameNumber(AndBytes(x, mask), p);
  }

  lemma MaskedNumber(x: seq<Byte>, mask: seq<Byte>, len: nat)
    requires |x| == |mask| && len <= 8 * |mask| && Number(mask) == MaskNumber(8 * |mask|, len)
    ensures Number(AndBytes(x, mask)) == Number(x) - Number(x) % Pow2(8 * |mask| - len)
  {
    AndOfNumbers(x, mask);
    NumberBelow(x);
    Masked(Number(x), Number(mask), 8 * |mask|, len);
  }

  lemma Masked(x: nat, mask: nat, width: nat, len: nat)
    requires len <= width && x < Pow2(width) && mask == MaskNumber(width, len)
    ensures And(x, mask) == x - x % Pow2(width - len)
  {
    AndHighMask(x, width - len, width);
  }

  lemma InBlock(x: nat, p: nat, k: nat, last: nat)
    requires Starts(p, k) && Ends(p, k, last)
    ensures x - x % Pow2(k) == p <==> p <= x <= last
  {
    OrLowMask(p, k);
    BlockOf(x, p, Pow2(k));
  }

  lemma SameNumber(a: seq<Byte>, b: seq<Byte>)
    requires |a| == |b|
    ensures a == b <==> Number(a) == Number(b)
  {
    if Number(a) == Number(b) {
      NumberInjective(a, b);
    }
  }

  lemma BlockOf(x: nat, p: nat, m: nat)
    requires m > 0 && p % m == 0
    ensures x - x % m == p <==> p <= x <= p + m - 1
  {
    if p <= x <= p + m - 1 {
      assert p == (p / m) * m;
      DivModUnique(x, m, p / m, x - p);
    }
  }
}
