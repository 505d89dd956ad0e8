/**
 The bit-sliced rule matcher: one row of rule bits per segment and value, combined 64 rules at a time, against a scan
 of the rules one by one.
 */
module Bitmatch {
  import opened Bits

  // The rule bits as the matcher sees them: tables of 2^segBits rows of maxRule / 8 bytes.
  datatype Table = Table(segBits: nat, tabNum: nat, maxRule: nat, mem: seq<Byte>) {
    function RowBytes(): nat {
      maxRule / 8
    }

    predicate Valid() {
      && segBits in {2, 4, 8} && tabNum > 0 && tabNum % (8 / segBits) == 0
      && |mem| >= RowBytes() * Pow2(segBits) * tabNum
    }

    // _bitmatch_get_bits
    function Row(index: nat, pos: nat): nat {
      RowBytes() * Pow2(segBits) * index + RowBytes() * pos
    }

    // The rules the 64-bit loops look at.
    function Rules(): nat {
      64 * (maxRule / 64)
    }
  }

  lemma RowInBounds(t: Table, index: nat, pos: nat)
    requires t.Valid() && index < t.tabNum && pos < Pow2(t.segBits)
    ensures t.Row(index, pos) + t.RowBytes() <= |t.mem|
  {
    var size := t.RowBytes() * Pow2(t.segBits);
    InBlock(t.RowBytes(), Pow2(t.segBits), pos);
    InBlock(size, t.tabNum, index);
  }

  lemma InBlock(unit: nat, count: nat, i: nat)
    requires i < count
    ensures unit * i + unit <= unit * count
  {
    assert unit * count == unit * i + unit * (count - i);
    assert unit * (count - i) == unit + unit * (count - i - 1);
  }

  /** Different rows share no byte. */
  lemma RowsDisjoint(t: Table, i: nat, p: nat, j: nat, q: nat)
    requires t.Valid() && i < t.tabNum && j < t.tabNum && p < Pow2(t.segBits) && q < Pow2(t.segBits)
    requires i < j || (i == j && p < q)
    ensures t.Row(i, p) + t.RowBytes() <= t.Row(j, q)
  {
    var size := t.RowBytes() * Pow2(t.segBits);
    InBlock(t.RowBytes(), Pow2(t.segBits), p);
    if i < j {
      InBlock(size, j, i);
    } else {
      InBlock(t.RowBytes(), q, p);
    }
  }

  // Rule r accepts the value pos in segment index.
  predicate RuleBit(t: Table, index: nat, pos: nat, r: nat) {
    var at := t.Row(index, pos) + r / 8;
    at < |t.mem| && Bit(t.mem[at], r % 8)
  }

  // The segment of the given width that begins at bit `shift` of a byte.
  function SegmentIn(byte: nat, shift: nat, width: nat): (v: nat)
    ensures v < Pow2(width)
  {
    AndLowMask(Shr(byte, shift), width);
    Remainder(Shr(byte, shift), Pow2(width));
    And(Shr(byte, shift), Pow2(width) - 1)
  }

  // The value of a segment: 1, 2 or 4 segments in each byte, the low one first.
  function Value(t: Table, data: seq<Byte>, index: nat): (v: nat)
    requires t.Valid()
    ensures v < Pow2(t.segBits)
  {
    var perByte := 8 / t.segBits;
    if index / perByte < |data| then SegmentIn(data[index / perByte], (index % perByte) * t.segBits, t.segBits) else 0
  }

  // There is a byte of data for every segment.
  predicate DataFits(t: Table, data: seq<Byte>) {
    |data| == t.tabNum * t.segBits / 8
  }

  // Rule r accepts every segment.
  predicate Accepts(t: Table, data: seq<Byte>, r: nat)
    requires t.Valid()
  {
    AcceptsFirst(t, data, t.tabNum, r)
  }

  // The first n segments accept rule r.
  predicate AcceptsFirst(t: Table, data: seq<Byte>, n: nat, r: nat)
    requires t.Valid()
  {
    forall k :: 0 <= k < n ==> RuleBit(t, k, Value(t, data, k), r)
  }

  /** The reference: the first rule from `from` on and before `end` that accepts every segment, or -1. */
  function LinearScan(t: Table, data: seq<Byte>, from: nat, end: nat): (r: int)
    requires t.Valid() && from <= end
    ensures r == -1 || from <= r < end
    ensures r >= 0 ==> Accepts(t, data, r)
    ensures forall k :: from <= k < (if r == -1 then end else r) ==> !Accepts(t, data, k)
    decreases end - from
  {
    if from == end then -1
    else if Accepts(t, data, from) then from
    else LinearScan(t, data, from + 1, end)
  }

  // ----- 64 rules at a time.

  // A little-endian load of n bytes.
  function Load(mem: seq<Byte>, at: nat, n: nat): nat
    requires at + n <= |mem|
    decreases n
  {
    if n == 0 then 0 else mem[at] + 256 * Load(mem, at + 1, n - 1)
  }

  lemma {:induction false} LoadBit(mem: seq<Byte>, at: nat, n: nat, i: nat)
    requires at + n <= |mem| && i < 8 * n
    ensures Bit(Load(mem, at, n), i) <==> Bit(mem[at + i / 8], i % 8)
    decreases n
  {
    BitOfSum(mem[at], Load(mem, at + 1, n - 1), i);
    if i < 8 {
    } else {
      LoadBit(mem, at + 1, n - 1, i - 8);
    }
  }

  // The bits of b + 256 * x are those of b, then those of x.
  lemma BitOfSum(b: Byte, x: nat, i: nat)
    ensures i < 8 ==> (Bit(b + 256 * x, i) <==> Bit(b, i))
    ensures i >= 8 ==> (Bit(b + 256 * x, i) <==> Bit(x, i - 8))
  {
    BitOfSums(b, x, 8, i);
    assert Pow2(8) == 256 by { Pow2_8(); }
  }

  lemma {:induction false} LoadBelow(mem: seq<Byte>, at: nat, n: nat)
    requires at + n <= |mem|
    ensures Load(mem, at, n) < Pow2(8 * n)
    decreases n
  {
    if n == 0 {
    } else {
      LoadBelow(mem, at + 1, n - 1);
      Pow2_8();
      Pow2Add(8, 8 * (n - 1));
    }
  }

  lemma WordInRow(t: Table, index: nat, pos: nat, offset: nat)
    requires t.Valid() && index < t.tabNum && pos < Pow2(t.segBits) && offset < t.maxRule / 64
    ensures t.Row(index, pos) + 8 * offset + 8 <= |t.mem|
  {
    RowInBounds(t, index, pos);
    assert 8 * offset + 8 <= t.maxRule / 8;
  }

  // _bitmatch_get_u64
  method GetU64(t: Table, index: nat, pos: nat, offset: nat) returns (word: nat)
    requires t.Valid() && index < t.tabNum && pos < Pow2(t.segBits) && offset < t.maxRule / 64
    ensures word < Pow2(64)
    ensures forall i :: 0 <= i < 64 ==> (Bit(word, i) <==> RuleBit(t, index, pos, 64 * offset + i))
  {
    WordInRow(t, index, pos, offset);
    var at := t.Row(index, pos) + 8 * offset;
    word := Load(t.mem, at, 8);
    LoadBelow(t.mem, at, 8);
    forall i | 0 <= i < 64
      ensures Bit(word, i) <==> RuleBit(t, index, pos, 64 * offset + i)
    {
      LoadBit(t.mem, at, 8, i);
      assert (64 * offset + i) / 8 == 8 * offset + i / 8 && (64 * offset + i) % 8 == i % 8;
    }
  }

  // Bit i of the word stands for rule 64 * offset + i and the first n segments.
  ghost predicate Combined(t: Table, data: seq<Byte>, offset: nat, n: nat, word: nat)
    requires t.Valid()
  {
    word < Pow2(64) && forall i :: 0 <= i < 64 ==> (Bit(word, i) <==> AcceptsFirst(t, data, n, 64 * offset + i))
  }

  // `_bitmatch_get_u64(...)` for the first segment.
  method FirstWord(t: Table, data: seq<Byte>, offset: nat, pos: nat) returns (word: nat)
    requires t.Valid() && offset < t.maxRule / 64 && pos == Value(t, data, 0)
    ensures Combined(t, data, offset, 1, word)
  {
    word := GetU64(t, 0, pos, offset);
  }

  // `tmp &= _bitmatch_get_u64(...)` for the next segment.
  method AndNext(t: Table, data: seq<Byte>, offset: nat, n: nat, pos: nat, tmp: nat) returns (word: nat)
    requires t.Valid() && n < t.tabNum && offset < t.maxRule / 64 && pos == Value(t, data, n)
    requires Combined(t, data, offset, n, tmp)
    ensures Combined(t, data, offset, n + 1, word)
  {
    var row := GetU64(t, n, pos, offset);
    word := And(tmp, row);
    AndAtMost(tmp, row);
    forall i | 0 <= i < 64
      ensures Bit(word, i) <==> AcceptsFirst(t, data, n + 1, 64 * offset + i)
    {
      AndBit(tmp, row, i);
      assert AcceptsFirst(t, data, n + 1, 64 * offset + i) <==>
             AcceptsFirst(t, data, n, 64 * offset + i) && RuleBit(t, n, Value(t, data, n), 64 * offset + i);
    }
  }

  // Once no rule is left, none comes back with further segments.
  lemma ZeroStays(t: Table, data: seq<Byte>, offset: nat, n: nat)
    requires t.Valid() && n <= t.tabNum && Combined(t, data, offset, n, 0)
    ensures Combined(t, data, offset, t.tabNum, 0)
  {
    forall i | 0 <= i < 64
      ensures Bit(0, i) <==> AcceptsFirst(t, data, t.tabNum, 64 * offset + i)
    {
      ZeroBit(i);
      assert !AcceptsFirst(t, data, n, 64 * offset + i);
    }
  }

  // ----- The inner loops for the three widths.

  lemma ValueAt(t: Table, data: seq<Byte>, perByte: nat, i: nat, k: nat)
    requires t.Valid() && perByte == 8 / t.segBits && i < |data| && k < perByte
    ensures Value(t, data, perByte * i + k) == SegmentIn(data[i], k * t.segBits, t.segBits)
  {
    DivModUnique(perByte * i + k, perByte, i, k);
  }

  // ----- The segments of a byte are its digits to the base 2^segBits, the low one first.

  lemma SegmentIsDigit(byte: nat, shift: nat, width: nat)
    ensures SegmentIn(byte, shift, width) == (byte / Pow2(shift)) % Pow2(width)
  {
    ShrIsDivision(byte, shift);
    AndLowMask(Shr(byte, shift), width);
  }

  lemma ModSplit(x: nat, p: nat, q: nat)
    requires p > 0 && q > 0
    ensures p * q > 0 && x % (p * q) == x % p + ((x / p) % q) * p
  {
    MultipleBound(p, q);
    var a, d := (x / p) / q, (x / p) % q;
    Regroup(x, p, q, a, d, x % p);
    DivModUnique(x, p * q, a, d * p + x % p);
  }

  lemma Regroup(x: int, p: int, q: int, a: int, d: int, r: int)
    requires x == (a * q + d) * p + r && 0 <= d < q && 0 <= r < p
    ensures x == a * (p * q) + (d * p + r) && 0 <= d * p + r < p * q
  {
    assert (a * q + d) * p == a * (p * q) + d * p;
    InBlock(p, q, d);
  }

  // The number the first n segments of byte i make up.
  function Assembled(t: Table, data: seq<Byte>, i: nat, n: nat): nat
    requires t.Valid()
  {
    if n == 0 then 0
    else Assembled(t, data, i, n - 1) + Value(t, data, (8 / t.segBits) * i + (n - 1)) * Pow2((n - 1) * t.segBits)
  }

  lemma {:induction false} AssembledLow(t: Table, data: seq<Byte>, i: nat, n: nat)
    requires t.Valid() && i < |data| && n <= 8 / t.segBits
    ensures Assembled(t, data, i, n) == data[i] % Pow2(n * t.segBits)
  {
    if n == 0 {
    } else {
      var k := n - 1;
      AssembledLow(t, data, i, k);
      ValueAt(t, data, 8 / t.segBits, i, k);
      SegmentIsDigit(data[i], k * t.segBits, t.segBits);
      ModSplit(data[i], Pow2(k * t.segBits), Pow2(t.segBits));
      Pow2Add(k * t.segBits, t.segBits);
      assert k * t.segBits + t.segBits == n * t.segBits;
    }
  }

  lemma WholeRange(byte: Byte, bits: nat)
    requires bits == 8
    ensures byte % Pow2(bits) == byte
  {
    assert byte < Pow2(bits) by { Pow2_8(); }
    Remainder(byte, Pow2(bits));
  }

  lemma PerByte(width: nat, n: nat)
    requires width in {2, 4, 8} && n == 8 / width
    ensures n * width == 8
  {
  }

  /** Put together, the segments of a byte are the byte, for every width. */
  lemma SegmentsMakeTheByte(t: Table, data: seq<Byte>, i: nat)
    requires t.Valid() && i < |data|
    ensures Assembled(t, data, i, 8 / t.segBits) == data[i]
  {
    var n := 8 / t.segBits;
    AssembledLow(t, data, i, n);
    PerByte(t.segBits, n);
    WholeRange(data[i], n * t.segBits);
  }

  lemma WholeByte(byte: Byte, width: nat)
    requires width == 8
    ensures SegmentIn(byte, 0, width) == byte
  {
    assert byte < Pow2(width) by { Pow2_8(); }
    AndLowMask(byte, width);
    Remainder(byte, Pow2(width));
  }

  lemma Values8(t: Table, data: seq<Byte>, i: nat)
    requires t.Valid() && t.segBits == 8 && i < |data|
    ensures Value(t, data, i) == data[i]
  {
    ValueAt(t, data, 1, i, 0);
    WholeByte(data[i], t.segBits);
  }

  lemma Values4(t: Table, data: seq<Byte>, i: nat)
    requires t.Valid() && t.segBits == 4 && i < |data|
    ensures Value(t, data, 2 * i) == And(data[i], 0xf)
    ensures Value(t, data, 2 * i + 1) == And(Shr(data[i], 4), 0xf)
  {
    assert Pow2(4) == 16;
    ValueAt(t, data, 2, i, 0);
    ValueAt(t, data, 2, i, 1);
  }

  lemma Values2(t: Table, data: seq<Byte>, i: nat)
    requires t.Valid() && t.segBits == 2 && i < |data|
    ensures Value(t, data, 4 * i) == And(data[i], 3)
    ensures Value(t, data, 4 * i + 1) == And(Shr(data[i], 2), 3)
    ensures Value(t, data, 4 * i + 2) == And(Shr(data[i], 4), 3)
    ensures Value(t, data, 4 * i + 3) == And(Shr(data[i], 6), 3)
  {
    assert Pow2(2) == 4;
    ValueAt(t, data, 4, i, 0);
    ValueAt(t, data, 4, i, 1);
    ValueAt(t, data, 4, i, 2);
    ValueAt(t, data, 4, i, 3);
  }

  // _bitmatch_match_first8, the word at one offset
  method Word8(t: Table, data: seq<Byte>, offset: nat) returns (tmp: nat)
    requires t.Valid() && t.segBits == 8 && DataFits(t, data) && offset < t.maxRule / 64
    ensures Combined(t, data, offset, t.tabNum, tmp)
  {
    Values8(t, data, 0);
    tmp := FirstWord(t, data, offset, data[0]);
    var i := 1;
    while i < t.tabNum
      invariant i <= t.tabNum && Combined(t, data, offset, i, tmp)
    {
      Values8(t, data, i);
      tmp := AndNext(t, data, offset, i, data[i], tmp);
      if tmp == 0 {
        ZeroStays(t, data, offset, i + 1);
        return;
      }
      i := i + 1;
    }
  }

  // _bitmatch_match_first4, the word at one offset
  method Word4(t: Table, data: seq<Byte>, offset: nat) returns (tmp: nat)
    requires t.Valid() && t.segBits == 4 && DataFits(t, data) && offset < t.maxRule / 64
    ensures Combined(t, data, offset, t.tabNum, tmp)
  {
    Values4(t, data, 0);
    tmp := FirstWord(t, data, offset, And(data[0], 0xf));
    tmp := AndNext(t, data, offset, 1, And(Shr(data[0], 4), 0xf), tmp);
    var i := 1;
    while i < t.tabNum / 2
      invariant i <= t.tabNum / 2 && Combined(t, data, offset, 2 * i, tmp)
    {
      Values4(t, data, i);
      tmp := AndNext(t, data, offset, 2 * i, And(data[i], 0xf), tmp);
      tmp := AndNext(t, data, offset, 2 * i + 1, And(Shr(data[i], 4), 0xf), tmp);
      if tmp == 0 {
        ZeroStays(t, data, offset, 2 * i + 2);
        return;
      }
      i := i + 1;
    }
  }

  // The four segments of one byte.
  method AndByte2(t: Table, data: seq<Byte>, offset: nat, i: nat, tmp: nat) returns (word: nat)
    requires t.Valid() && t.segBits == 2 && offset < t.maxRule / 64 && i < |data| && 4 * i + 3 < t.tabNum
    requires Combined(t, data, offset, 4 * i, tmp)
    ensures Combined(t, data, offset, 4 * i + 4, word)
  {
    Values2(t, data, i);
    word := AndNext(t, data, offset, 4 * i, And(data[i], 3), tmp);
    word := AndNext(t, data, offset, 4 * i + 1, And(Shr(data[i], 2), 3), word);
    word := AndNext(t, data, offset, 4 * i + 2, And(Shr(data[i], 4), 3), word);
    word := AndNext(t, data, offset, 4 * i + 3, And(Shr(data[i], 6), 3), word);
  }

  // _bitmatch_match_first2, the word at one offset
  method Word2(t: Table, data: seq<Byte>, offset: nat) returns (tmp: nat)
    requires t.Valid() && t.segBits == 2 && DataFits(t, data) && offset < t.maxRule / 64
    ensures Combined(t, data, offset, t.tabNum, tmp)
  {
    Values2(t, data, 0);
    tmp := FirstWord(t, data, offset, And(data[0], 3));
    tmp := AndNext(t, data, offset, 1, And(Shr(data[0], 2), 3), tmp);
    tmp := AndNext(t, data, offset, 2, And(Shr(data[0], 4), 3), tmp);
    tmp := AndNext(t, data, offset, 3, And(Shr(data[0], 6), 3), tmp);
    var i := 1;
    while i < t.tabNum / 4
      invariant i <= t.tabNum / 4 && Combined(t, data, offset, 4 * i, tmp)
    {
      tmp := AndByte2(t, data, offset, i, tmp);
      if tmp == 0 {
        ZeroStays(t, data, offset, 4 * i + 4);
        return;
      }
      i := i + 1;
    }
  }

  // ----- The first rule.

  // The lowest set bit of a nonzero word.
  function LowestBit(x: nat): (i: nat)
    requires x > 0
    ensures Bit(x, i) && forall j :: 0 <= j < i ==> !Bit(x, j)
    ensures x >= Pow2(i)
  {
    if x % 2 == 1 then assert Pow2(0) == 1; 0 else LowestBit(x / 2) + 1
  }

  // The int `1 << i` for i < 64, converted to 64 bits: at i == 31 the sign is extended. From 32 on C does not define the
  // shift; the machine takes the count modulo 32, and only zero gets that far.
  function ShiftedOne(i: nat): nat {
    Pow2Monotone(i, i + 33);
    if i < 31 then Pow2(i) else if i == 31 then Pow2(i + 33) - Pow2(i) else Pow2(i - 32)
  }

  lemma {:induction false} NoLowBits(x: nat, k: nat)
    requires x > 0 && forall j :: 0 <= j < k ==> !Bit(x, j)
    ensures x >= Pow2(k)
  {
    if k == 0 {
    } else {
      assert !Bit(x, 0);
      forall j | 0 <= j < k - 1
        ensures !Bit(x / 2, j)
      {
        assert !Bit(x, j + 1);
      }
      NoLowBits(x / 2, k - 1);
    }
  }

  // No bit below k is set.
  ghost predicate NoneBelow(x: nat, k: nat) {
    forall j :: 0 <= j < k ==> !Bit(x, j)
  }

  lemma HighTest(num: nat, k: nat, n: nat, mask: nat)
    requires k <= n && num < Pow2(n) && NoneBelow(num, k) && mask == Pow2(n) - Pow2(k)
    ensures And(num, mask) != 0 <==> num > 0
  {
    HighPart(num, k, n);
    if num > 0 {
      NoLowBits(num, k);
    }
  }

  // The test of one round: below bit 31 it sees bit i ...
  lemma TestsOneBit(num: nat, i: nat)
    requires i < 31
    ensures And(num, ShiftedOne(i)) != 0 <==> Bit(num, i)
  {
    AndPow2(num, i);
  }

  // ... and at bit 31 all the bits from there on.
  lemma TestsTheRest(num: nat, i: nat, width: nat)
    requires i == 31 && width == i + 33 && num < Pow2(width) && NoneBelow(num, i)
    ensures And(num, ShiftedOne(i)) != 0 <==> num > 0
  {
    HighTest(num, i, width, ShiftedOne(i));
  }

  lemma LowestIs(num: nat, i: nat)
    requires num > 0 && NoneBelow(num, i)
    ensures LowestBit(num) >= i && (Bit(num, i) ==> LowestBit(num) == i)
  {
  }

  /** BIT_GetLowIndex64 gives the lowest set bit up to bit 30; from bit 31 on it always answers 31, because the tested
      constant is an int. */
  method GetLowIndex64(num: nat) returns (r: int)
    requires num < Pow2(64)
    ensures num > 0 ==> r == if LowestBit(num) <= 31 then LowestBit(num) else 31
    ensures num == 0 ==> r == -1
  {
    var i := 0;
    while i < 64
      invariant i <= 64 && (if i <= 31 then NoneBelow(num, i) else num == 0)
    {
      if i < 31 {
        TestsOneBit(num, i);
      } else if i == 31 {
        TestsTheRest(num, i, 64);
      }
      if And(num, ShiftedOne(i)) != 0 {
        LowestIs(num, i);
        return i;
      }
      i := i + 1;
    }
    return -1;
  }

  // What the matcher answers when the linear scan answers r.
  function Reported(r: int): int
    requires r >= -1
  {
    if r >= 0 && r % 64 > 31 then r - r % 64 + 31 else r
  }

  /** BITMATCH_MatchFirst on valid tables: the answer of the linear scan over the rules the words cover, except that a
      rule in the upper half of its word is reported as bit 31 of that word. */
  method MatchFirst(t: Table, data: seq<Byte>) returns (r: int)
    requires t.segBits in {2, 4, 8} ==> t.Valid() && DataFits(t, data)
    ensures r == if t.segBits in {2, 4, 8} then Reported(LinearScan(t, data, 0, t.Rules())) else -1
  {
    if t.segBits != 2 && t.segBits != 4 && t.segBits != 8 {
      return -1;
    }
    var offset := 0;
    while offset < t.maxRule / 64
      invariant offset <= t.maxRule / 64
      invariant LinearScan(t, data, 64 * offset, t.Rules()) == LinearScan(t, data, 0, t.Rules())
    {
      var found, rule := FirstInWord(t, data, offset);
      if found {
        return rule;
      }
      offset := offset + 1;
    }
    return -1;
  }

  // One round of the outer loop.
  method FirstInWord(t: Table, data: seq<Byte>, offset: nat) returns (found: bool, rule: int)
    requires t.Valid() && DataFits(t, data) && offset < t.maxRule / 64
    ensures found ==> rule == Reported(LinearScan(t, data, 64 * offset, t.Rules()))
    ensures !found ==> LinearScan(t, data, 64 * offset, t.Rules()) == LinearScan(t, data, 64 * offset + 64, t.Rules())
  {
    var tmp := CombinedWord(t, data, offset);
    found, rule := tmp != 0, -1;
    if found {
      var low := GetLowIndex64(tmp);
      FoundInWord(t, data, offset, tmp);
      ReportedInWord(offset, LowestBit(tmp));
      rule := offset * 64 + low;
    } else {
      NothingInWord(t, data, offset);
    }
  }

  // The dispatch of BITMATCH_MatchFirst on the segment width.
  method CombinedWord(t: Table, data: seq<Byte>, offset: nat) returns (tmp: nat)
    requires t.Valid() && DataFits(t, data) && offset < t.maxRule / 64
    ensures Combined(t, data, offset, t.tabNum, tmp)
  {
    if t.segBits == 2 {
      tmp := Word2(t, data, offset);
    } else if t.segBits == 4 {
      tmp := Word4(t, data, offset);
    } else {
      tmp := Word8(t, data, offset);
    }
  }

  lemma ReportedInWord(offset: nat, low: nat)
    requires low < 64
    ensures Reported(64 * offset + low) == offset * 64 + (if low <= 31 then low else 31)
  {
    DivModUnique(64 * offset + low, 64, offset, low);
  }

  lemma {:induction false} ScanSkips(t: Table, data: seq<Byte>, from: nat, mid: nat, end: nat)
    requires t.Valid() && from <= mid <= end
    requires forall k :: from <= k < mid ==> !Accepts(t, data, k)
    ensures LinearScan(t, data, from, end) == LinearScan(t, data, mid, end)
    decreases (mid as int) - (from as int)
  {
    if from == mid {
    } else {
      ScanSkips(t, data, from + 1, mid, end);
    }
  }

  // A bit that is not set rules its rule out.
  lemma RuledOut(t: Table, data: seq<Byte>, offset: nat, tmp: nat, k: nat)
    requires t.Valid() && Combined(t, data, offset, t.tabNum, tmp)
    requires 64 * offset <= k < 64 * offset + 64 && !Bit(tmp, k - 64 * offset)
    ensures !Accepts(t, data, k)
  {
    assert !AcceptsFirst(t, data, t.tabNum, 64 * offset + (k - 64 * offset));
  }

  lemma RuledIn(t: Table, data: seq<Byte>, offset: nat, tmp: nat, i: nat)
    requires t.Valid() && Combined(t, data, offset, t.tabNum, tmp) && i < 64 && Bit(tmp, i)
    ensures Accepts(t, data, 64 * offset + i)
  {
    assert AcceptsFirst(t, data, t.tabNum, 64 * offset + i);
  }

  lemma NothingInWord(t: Table, data: seq<Byte>, offset: nat)
    requires t.Valid() && offset < t.maxRule / 64 && Combined(t, data, offset, t.tabNum, 0)
    ensures LinearScan(t, data, 64 * offset, t.Rules()) == LinearScan(t, data, 64 * offset + 64, t.Rules())
  {
    forall k | 64 * offset <= k < 64 * offset + 64
      ensures !Accepts(t, data, k)
    {
      ZeroBit(k - 64 * offset);
      RuledOut(t, data, offset, 0, k);
    }
    ScanSkips(t, data, 64 * offset, 64 * offset + 64, t.Rules());
  }

  lemma FoundInWord(t: Table, data: seq<Byte>, offset: nat, tmp: nat)
    requires t.Valid() && offset < t.maxRule / 64 && Combined(t, data, offset, t.tabNum, tmp) && tmp > 0
    ensures LowestBit(tmp) < 64 && LinearScan(t, data, 64 * offset, t.Rules()) == 64 * offset + LowestBit(tmp)
  {
    var low := LowestBit(tmp);
    BitBelow(tmp, low, 64);
    forall k | 64 * offset <= k < 64 * offset + low
      ensures !Accepts(t, data, k)
    {
      RuledOut(t, data, offset, tmp, k);
    }
    ScanSkips(t, data, 64 * offset, 64 * offset + low, t.Rules());
    RuledIn(t, data, offset, tmp, low);
  }

  lemma {:induction false} ScanPrefix(t: Table, data: seq<Byte>, from: nat, mid: nat, end: nat)
    requires t.Valid() && from <= mid <= end
    ensures var r := LinearScan(t, data, from, end);
            LinearScan(t, data, from, mid) == if r < mid then r else -1
    decreases (mid as int) - (from as int)
  {
    if from == mid {
    } else {
      ScanPrefix(t, data, from + 1, mid, end);
    }
  }

  /** The matcher agrees with the scan of all the rules a row has room for if and only if no rule matches, or the first
      one that does lies in the lower half of a whole 64-bit word. (BITMATCH_Create refuses the numbers of rules that
      are multiples of 64, so the rows it makes never end with a whole word.) */
  lemma AgreesWithScanIff(t: Table, data: seq<Byte>)
    requires t.Valid()
    ensures var r := LinearScan(t, data, 0, 8 * t.RowBytes());
            Reported(LinearScan(t, data, 0, t.Rules())) == r <==> r == -1 || (r < t.Rules() && r % 64 <= 31)
  {
    RulesFit(t);
    ScanPrefix(t, data, 0, t.Rules(), 8 * t.RowBytes());
    ReportedIff(LinearScan(t, data, 0, 8 * t.RowBytes()), t.Rules());
  }

  lemma RulesFit(t: Table)
    ensures t.Rules() <= 8 * t.RowBytes()
  {
    var k := t.maxRule / 64;
    assert 8 * k <= t.maxRule / 8;
  }

  lemma ReportedIff(r: int, end: nat)
    requires r >= -1
    ensures Reported(if r < end then r else -1) == r <==> r == -1 || (r < end && r % 64 <= 31)
  {
  }
}
