/**
 The Internet checksum: the full sum of section 1 of RFC 1071, its incremental update by equation 3 of section 3 of
 RFC 1624, and the running sum that data is added to and removed from.
 */
module Checksum {
  import opened Bits
  import In6Prefix

  type Word = x: int | 0 <= x <= 0xffff

  // The word of two bytes in memory or network order: the high byte has weight 256.
  function Pair(high: Byte, low: Byte): Word {
    (high as int) * 256 + (low as int)
  }

  function Sum(words: seq<Word>): (s: nat)
    ensures s <= 0xffff * |words|
  {
    if words == [] then 0 else Sum(words[..|words| - 1]) + words[|words| - 1]
  }

  // ----- Folding carries.

  // `(sum & 0xffff) + (sum >> 16)`
  function Fold(sum: nat): nat {
    sum % 0x1_0000 + sum / 0x1_0000
  }

  /** Two folds bring any 32-bit sum into 16 bits and keep its residue modulo 65535; only 0 folds to 0. */
  lemma TwoFolds(sum: nat)
    requires sum <= 0xffff_ffff
    ensures Fold(Fold(sum)) <= 0xffff
    ensures Fold(Fold(sum)) % 0xffff == sum % 0xffff
    ensures Fold(Fold(sum)) == 0 <==> sum == 0
  {
    OneFold(sum);
    OneFold(Fold(sum));
  }

  lemma OneFold(sum: nat)
    ensures Fold(sum) % 0xffff == sum % 0xffff
    ensures Fold(sum) == 0 <==> sum == 0
    ensures sum > 0xffff ==> Fold(sum) < sum
  {
    var q := sum / 0x1_0000;
    assert sum == Fold(sum) + q * 0xffff;
    DivModUnique(sum, 0xffff, Fold(sum) / 0xffff + q, Fold(sum) % 0xffff);
  }

  // ----- The incremental update.

  // The unbounded value of the accumulator of IN_CHKSUM_Change.
  function ChangeTotal(olds: seq<Word>, news: seq<Word>, checksum: Word): (total: nat)
    ensures total <= 0xffff * (|olds| + |news| + 1)
  {
    (0xffff - checksum) + (0xffff * |olds| - Sum(olds)) + Sum(news)
  }

  // The representative of x modulo 65535 among 1..65535.
  function Canonical(x: int): (r: Word)
    ensures 1 <= r <= 0xffff && r % 0xffff == x % 0xffff
  {
    if x % 0xffff == 0 then 0xffff else x % 0xffff
  }

  lemma CanonicalUnique(x: int, r: Word)
    requires 1 <= r && r % 0xffff == x % 0xffff
    ensures r == Canonical(x)
  {
  }

  // The checksum that IN_CHKSUM_Change returns for whatever number of words: the one for the 32-bit accumulator.
  function Returned(olds: seq<Word>, news: seq<Word>, checksum: Word): Word {
    Canonical(0 - U32(ChangeTotal(olds, news, checksum)))
  }

  // The checksum it is meant to return: the old one plus the words that go minus the words that come.
  function Changed(olds: seq<Word>, news: seq<Word>, checksum: Word): Word {
    Canonical(checksum + Sum(olds) - Sum(news))
  }

  /** IN_CHKSUM_Change: the new checksum is never 0, and it is the right one if and only if the accumulator overflowed a
      multiple of 65535 times (which for the counts two ints can express means never). */
  method Change(olds: seq<Word>, news: seq<Word>, checksum: Word) returns (r: Word)
    ensures r >= 1 && r == Returned(olds, news, checksum)
    ensures r == Changed(olds, news, checksum) <==> (ChangeTotal(olds, news, checksum) / WORD) % 0xffff == 0
    ensures |olds| + |news| <= MAX_WORDS ==>
              (r == Changed(olds, news, checksum) <==> ChangeTotal(olds, news, checksum) <= 0xffff_ffff)
    ensures |olds| + |news| <= 65536 ==> r == Changed(olds, news, checksum)
  {
    var sum := Accumulate(olds, news, checksum);
    TwoFolds(sum);
    sum := Fold(sum);
    sum := Fold(sum);
    ComplementIsCanonical(sum, U32(ChangeTotal(olds, news, checksum)));
    ReturnedIff(olds, news, checksum);
    if sum == 0xffff {
      return sum;
    }
    return 0xffff - sum;
  }

  lemma ComplementIsCanonical(folded: Word, sum: nat)
    requires folded % 0xffff == sum % 0xffff
    ensures (if folded == 0xffff then folded else 0xffff - folded) == Canonical(0 - sum)
  {
    Negated(sum, 0, 0 - sum);
  }

  // The words of two lists whose lengths are ints.
  const MAX_WORDS: nat := 2 * 0x7fff_ffff

  /** The checksum returned is the right one exactly when the carries that left the accumulator cancel modulo 65535, which up
      to MAX_WORDS words is when there were none. */
  lemma ReturnedIff(olds: seq<Word>, news: seq<Word>, checksum: Word)
    ensures Returned(olds, news, checksum) == Changed(olds, news, checksum) <==>
            (ChangeTotal(olds, news, checksum) / WORD) % 0xffff == 0
    ensures |olds| + |news| <= MAX_WORDS ==>
              (Returned(olds, news, checksum) == Changed(olds, news, checksum) <==>
               ChangeTotal(olds, news, checksum) <= 0xffff_ffff)
    ensures |olds| + |news| <= 65536 ==> ChangeTotal(olds, news, checksum) <= 0xffff_ffff
  {
    var total := ChangeTotal(olds, news, checksum);
    RightResidue(olds, news, checksum);
    CarriesIff(total, U32(total), total / WORD);
    if |olds| + |news| <= MAX_WORDS {
      FewCarries(total, total / WORD);
    }
  }

  lemma RightResidue(olds: seq<Word>, news: seq<Word>, checksum: Word)
    ensures Changed(olds, news, checksum) == Canonical(0 - ChangeTotal(olds, news, checksum))
  {
    var total: int := ChangeTotal(olds, news, checksum);
    var x: int := checksum + Sum(olds) - Sum(news);
    Negated(total, |olds| + 1, x);
    Negated(total, 0, 0 - total);
  }

  // Losing `carries` words from a sum keeps its residue when their number is a multiple of 65535.
  lemma CarriesIff(total: nat, rest: nat, carries: nat)
    requires total == carries * WORD + rest
    ensures Canonical(0 - rest) == Canonical(0 - total) <==> carries % 0xffff == 0
  {
    var t: int, c: int := total, carries;
    Shifted(0 - rest, c - t, c * 0x1_0001);
    if c % 0xffff == 0 {
      Shifted(c - t, 0 - t, c / 0xffff);
    } else {
      SameResidueOnly(c - t, 0 - t, t);
    }
  }

  lemma SameResidueOnly(a: int, b: int, c: int)
    requires (c + a) % 0xffff != (c + b) % 0xffff
    ensures a % 0xffff != b % 0xffff
  {
    if a % 0xffff == b % 0xffff {
      SameResidue(a, b, c);
    }
  }

  lemma ResidueIff(total: nat, rest: nat, carries: nat)
    requires total == carries * WORD + rest
    ensures rest % 0xffff == total % 0xffff <==> carries % 0xffff == 0
  {
    var t: int, c: int := total, carries;
    Shifted(rest, t - c, 0 - c * 0x1_0001);
    if c % 0xffff == 0 {
      Shifted(t - c, t, 0 - c / 0xffff);
    } else {
      SameResidueOnly(t - c, t, c - t);
      assert (c - t) + (t - c) == 0 && (c - t) + t == c;
    }
  }

  lemma FewCarries(total: nat, carries: nat)
    requires carries == total / WORD && total <= 0xffff * (MAX_WORDS + 1)
    ensures carries % 0xffff == 0 <==> total <= 0xffff_ffff
  {
  }

  // The two loops of IN_CHKSUM_Change.
  method Accumulate(olds: seq<Word>, news: seq<Word>, checksum: Word) returns (sum: nat)
    ensures sum == U32(ChangeTotal(olds, news, checksum))
  {
    sum := 0xffff - checksum;
    ghost var total: nat := sum;
    for i := 0 to |olds|
      invariant total == (0xffff - checksum) + (0xffff * i - Sum(olds[..i])) && sum == U32(total)
    {
      SumStep(olds, i);
      ModAdd(total, 0xffff - olds[i]);
      total := total + (0xffff - olds[i]);
      sum := U32(sum + (0xffff - olds[i]));
    }
    assert olds[..|olds|] == olds;
    for i := 0 to |news|
      invariant total == (0xffff - checksum) + (0xffff * |olds| - Sum(olds)) + Sum(news[..i]) && sum == U32(total)
    {
      SumStep(news, i);
      ModAdd(total, news[i]);
      total := total + news[i];
      sum := U32(sum + news[i]);
    }
    assert news[..|news|] == news;
  }

  lemma Negated(total: int, k: int, x: int)
    requires total == 0xffff * k - x
    ensures (0xffff - total % 0xffff) % 0xffff == x % 0xffff
  {
    Shifted(0xffff - total % 0xffff, x, 1 - k + total / 0xffff);
  }

  lemma Shifted(y: int, x: int, m: int)
    requires y == x + 0xffff * m
    ensures y % 0xffff == x % 0xffff
  {
  }

  /** The exact bound: the 32-bit accumulator holds the total of every update of n words if and only if n <= 65536. */
  lemma AccumulatorBound(n: nat)
    ensures (forall olds: seq<Word>, news: seq<Word>, checksum: Word ::
               |olds| + |news| == n ==> ChangeTotal(olds, news, checksum) <= 0xffff_ffff) <==> n <= 65536
  {
    if n > 65536 {
      var zeros: seq<Word> := seq(n, i => 0);
      SumOfZeros(zeros);
      assert ChangeTotal(zeros, [], 0) == 0xffff * (n + 1);
    }
  }

  lemma {:induction false} SumOfZeros(words: seq<Word>)
    requires forall i :: 0 <= i < |words| ==> words[i] == 0
    ensures Sum(words) == 0
  {
    if words == [] {
    } else {
      SumOfZeros(words[..|words| - 1]);
    }
  }

  // The update of n words with the largest total, as two lists whose lengths are ints.
  lemma WorstUpdate(n: nat) returns (olds: seq<Word>, news: seq<Word>)
    requires n <= MAX_WORDS
    ensures |olds| + |news| == n && |olds| <= 0x7fff_ffff && |news| <= 0x7fff_ffff
    ensures ChangeTotal(olds, news, 0) == 0xffff * (n + 1)
  {
    var m := if n <= 0x7fff_ffff then n else 0x7fff_ffff;
    olds := seq(m, i => 0);
    news := seq(n - m, i => 0xffff);
    SumOfZeros(olds);
    SumOfOnes(news);
  }

  lemma {:induction false} SumOfOnes(words: seq<Word>)
    requires forall i :: 0 <= i < |words| ==> words[i] == 0xffff
    ensures Sum(words) == 0xffff * |words|
  {
    if words == [] {
    } else {
      SumOfOnes(words[..|words| - 1]);
    }
  }

  // Every update of n words returns the right checksum.
  ghost predicate AlwaysRight(n: nat) {
    forall olds: seq<Word>, news: seq<Word>, checksum: Word ::
      |olds| + |news| == n ==> Returned(olds, news, checksum) == Changed(olds, news, checksum)
  }

  /** The bound is exact for the checksum returned too: of all numbers of words that two ints can express, up to 65536 every
      update is right, and for every larger number some update is wrong. */
  lemma AlwaysRightIff(n: nat)
    requires n <= MAX_WORDS
    ensures AlwaysRight(n) <==> n <= 65536
  {
    if n > 65536 {
      var olds, news := WorstUpdate(n);
      ReturnedIff(olds, news, 0);
      assert Returned(olds, news, 0) != Changed(olds, news, 0);
    } else {
      forall olds: seq<Word>, news: seq<Word>, checksum: Word | |olds| + |news| == n
        ensures Returned(olds, news, checksum) == Changed(olds, news, checksum)
      {
        ReturnedIff(olds, news, checksum);
      }
    }
  }

  /** One word beyond the bound: 65537 zero words taken out of a packet with checksum 0. */
  lemma BeyondTheBoundFails(zeros: seq<Word>)
    requires |zeros| == 65537 && forall i :: 0 <= i < |zeros| ==> zeros[i] == 0
    ensures Returned(zeros, [], 0) == 1 && Changed(zeros, [], 0) == 0xffff
  {
    SumOfZeros(zeros);
    assert ChangeTotal(zeros, [], 0) == 0xffff * 65538 == 0x1_0000_0000 + 65534;
  }

  // ----- What the update means.

  /** A checksum that was valid stays valid. */
  lemma ChangeKeepsValid(rest: seq<Word>, olds: seq<Word>, news: seq<Word>, checksum: Word)
    requires (Sum(rest) + Sum(olds) + checksum) % 0xffff == 0
    ensures (Sum(rest) + Sum(news) + Changed(olds, news, checksum)) % 0xffff == 0
  {
    var d := checksum + Sum(olds) - Sum(news);
    SameResidue(Changed(olds, news, checksum), d, Sum(rest) + Sum(news));
  }

  lemma SameResidue(a: int, b: int, c: int)
    requires a % 0xffff == b % 0xffff
    ensures (c + a) % 0xffff == (c + b) % 0xffff
  {
    assert c + a == c + b + (a / 0xffff - b / 0xffff) * 0xffff;
  }

  /** Updating step by step is updating at once. */
  lemma ChangesCompose(a: seq<Word>, b: seq<Word>, c: seq<Word>, checksum: Word)
    ensures Changed(b, c, Changed(a, b, checksum)) == Changed(a, c, checksum)
  {
    SameResidue(Changed(a, b, checksum), checksum + Sum(a) - Sum(b), Sum(b) - Sum(c));
    assert Changed(a, b, checksum) + Sum(b) - Sum(c) == (Sum(b) - Sum(c)) + Changed(a, b, checksum);
    CanonicalUnique(checksum + Sum(a) - Sum(c), Changed(b, c, Changed(a, b, checksum)));
  }

  /** Changing back restores the checksum exactly if and only if it was not 0. */
  lemma ChangeUndone(a: seq<Word>, b: seq<Word>, checksum: Word)
    ensures Changed(b, a, Changed(a, b, checksum)) == checksum <==> checksum != 0
  {
    ChangesCompose(a, b, a, checksum);
  }

  // ----- The full sum.

  // The 16-bit loads of a little-endian machine, with a last odd byte alone.
  function Loads(data: seq<Byte>): (words: seq<Word>)
    ensures |words| == (|data| + 1) / 2
  {
    if data == [] then []
    else if |data| == 1 then [Pair(0, data[0])]
    else [Pair(data[1], data[0])] + Loads(data[2..])
  }

  lemma {:induction false} SumCons(x: Word, words: seq<Word>)
    ensures Sum([x] + words) == x + Sum(words)
  {
    if words == [] {
      assert [x] + words == [x];
    } else {
      var n := |words| - 1;
      SumCons(x, words[..n]);
      assert ([x] + words)[..n + 1] == [x] + words[..n];
    }
  }

  lemma LoadsSum(data: seq<Byte>)
    ensures |data| > 1 ==> Sum(Loads(data)) == Pair(data[1], data[0]) + Sum(Loads(data[2..]))
    ensures |data| == 1 ==> Sum(Loads(data)) == data[0]
  {
    if |data| > 1 {
      SumCons(Pair(data[1], data[0]), Loads(data[2..]));
    } else if |data| == 1 {
      assert Loads(data) == [Pair(0, data[0])] + [];
      SumCons(Pair(0, data[0]), []);
    }
  }

  lemma {:induction false} LoadsAt(data: seq<Byte>, i: nat)
    requires i < |Loads(data)|
    ensures Loads(data)[i] == Pair(if 2 * i + 1 < |data| then data[2 * i + 1] else 0, data[2 * i])
  {
    if i == 0 {
    } else {
      LoadsAt(data[2..], i - 1);
    }
  }

  /** A load takes the first byte as the low one; behind the end there is a zero byte. */
  lemma LoadedBytes(data: seq<Byte>, i: nat)
    requires i < |Loads(data)|
    ensures Loads(data)[i] % 256 == data[2 * i]
    ensures Loads(data)[i] / 256 == if 2 * i + 1 < |data| then data[2 * i + 1] else 0
  {
    LoadsAt(data, i);
    PairBytes(if 2 * i + 1 < |data| then data[2 * i + 1] else 0, data[2 * i]);
  }

  lemma PairBytes(high: Byte, low: Byte)
    ensures Pair(high, low) % 256 == low && Pair(high, low) / 256 == high
  {
  }

  // _csum_get_16b_sum
  method Get16bSum(data: seq<Byte>) returns (checksum: nat)
    ensures checksum == U32(Sum(Loads(data)))
  {
    checksum := 0;
    var rest := data;
    ghost var total: nat := 0;
    while |rest| > 1
      invariant total + Sum(Loads(rest)) == Sum(Loads(data)) && checksum == U32(total)
      decreases |rest|
    {
      LoadsSum(rest);
      ghost var before := total;
      total := total + Pair(rest[1], rest[0]);
      ModAdd(before, Pair(rest[1], rest[0]));
      checksum := U32(checksum + Pair(rest[1], rest[0]));
      rest := rest[2..];
    }
    LoadsSum(rest);
    if |rest| > 0 {
      ModAdd(total, rest[0]);
      checksum := U32(checksum + rest[0]);
    }
  }

  // ----- The sum is the residue of the message itself.

  // The message as one number in network order, an odd last byte followed by a zero byte.
  function Message(data: seq<Byte>): nat {
    In6Prefix.Number(if |data| % 2 == 0 then data else data + [0])
  }

  lemma {:induction false} PowerOne(m: nat)
    ensures Pow2(16 * m) % 0xffff == 1
  {
    if m == 0 {
    } else {
      PowerOne(m - 1);
      Pow2_16();
      Pow2Add(16, 16 * (m - 1));
      var p := Pow2(16 * (m - 1));
      Shifted(0x1_0000 * p, p, p);
    }
  }

  lemma EvenPower(n: nat)
    requires n % 2 == 0
    ensures Pow2(8 * n) % 0xffff == 1
  {
    PowerOne(n / 2);
    assert 16 * (n / 2) == 8 * n;
  }

  lemma ScaledResidue(x: nat, p: nat)
    requires p % 0xffff == 1
    ensures (x * p) % 0xffff == x % 0xffff
  {
    var q := p / 0xffff;
    assert x * p == x + 0xffff * (x * q) by { assert p == 0xffff * q + 1; }
    Shifted(x * p, x, x * q);
  }

  lemma PairNumber(high: Byte, low: Byte)
    ensures In6Prefix.Number([high, low]) == (high as int) * 256 + (low as int)
  {
    assert [high, low][..1] == [high] && [high][..0] == [];
    assert In6Prefix.Number([]) == 0;
    assert In6Prefix.Number([high]) == high;
  }

  // Two bytes more at the front.
  lemma MessageStep(high: Byte, low: Byte, rest: seq<Byte>)
    ensures Message([high, low] + rest) % 0xffff == ((high as int) * 256 + (low as int) + Message(rest)) % 0xffff
  {
    assert ([high, low] + rest) + [0] == [high, low] + (rest + [0]);
    EvenStep(high, low, if |rest| % 2 == 0 then rest else rest + [0]);
  }

  lemma EvenStep(high: Byte, low: Byte, padded: seq<Byte>)
    requires |padded| % 2 == 0
    ensures In6Prefix.Number([high, low] + padded) % 0xffff
            == ((high as int) * 256 + (low as int) + In6Prefix.Number(padded)) % 0xffff
  {
    In6Prefix.NumberConcat([high, low], padded);
    PairNumber(high, low);
    EvenPower(|padded|);
    WeightGone((high as int) * 256 + (low as int), Pow2(8 * |padded|), In6Prefix.Number(padded));
  }

  lemma WeightGone(x: nat, p: nat, y: nat)
    requires p % 0xffff == 1
    ensures (x * p + y) % 0xffff == (x + y) % 0xffff
  {
    ScaledResidue(x, p);
    SameResidue(x * p, x, y);
  }

  // The sum of the words is, modulo 65535, the message itself read as one number.
  predicate SumsToMessage(data: seq<Byte>) {
    Sum(NetWords(data)) % 0xffff == Message(data) % 0xffff
  }

  lemma OneByteSum(byte: Byte)
    ensures SumsToMessage([byte])
  {
    NetWordsSum([byte]);
    assert [byte] + [0] == [byte, 0];
    PairNumber(byte, 0);
  }

  lemma TwoBytesMore(high: Byte, low: Byte, rest: seq<Byte>)
    requires SumsToMessage(rest)
    ensures SumsToMessage([high, low] + rest)
  {
    NetWordsSum([high, low] + rest);
    assert ([high, low] + rest)[2..] == rest;
    MessageStep(high, low, rest);
    SameResidue(Sum(NetWords(rest)), Message(rest), Pair(high, low));
  }

  lemma {:induction false} SumIsMessage(data: seq<Byte>)
    ensures SumsToMessage(data)
  {
    if |data| == 0 {
    } else if |data| == 1 {
      OneByteSum(data[0]);
      assert data == [data[0]];
    } else {
      SumIsMessage(data[2..]);
      TwoBytesMore(data[0], data[1], data[2..]);
      assert data == [data[0], data[1]] + data[2..];
    }
  }

  /** The sum of the loads is, modulo 65535, the sum of the words with their bytes exchanged. */
  lemma {:induction false} LoadsAreSwapped(data: seq<Byte>)
    ensures (256 * Sum(Loads(data))) % 0xffff == Sum(NetWords(data)) % 0xffff
  {
    LoadsSum(data);
    NetWordsSum(data);
    if |data| > 1 {
      LoadsAreSwapped(data[2..]);
      SwappedStep(data[0], data[1], Sum(Loads(data[2..])), Sum(NetWords(data[2..])));
    }
  }

  lemma SwappedStep(first: Byte, second: Byte, loads: nat, words: nat)
    requires (256 * loads) % 0xffff == words % 0xffff
    ensures (256 * (Pair(second, first) + loads)) % 0xffff == (Pair(first, second) + words) % 0xffff
  {
    SameResidue(256 * loads, words, Pair(first, second));
    Shifted(256 * (Pair(second, first) + loads), Pair(first, second) + 256 * loads, second);
  }

  lemma NetWordsSum(data: seq<Byte>)
    ensures |data| > 1 ==> Sum(NetWords(data)) == Pair(data[0], data[1]) + Sum(NetWords(data[2..]))
    ensures |data| == 1 ==> Sum(NetWords(data)) == Pair(data[0], 0)
  {
    if |data| > 1 {
      SumCons(Pair(data[0], data[1]), NetWords(data[2..]));
    } else if |data| == 1 {
      assert NetWords(data) == [Pair(data[0], 0)] + [];
      SumCons(Pair(data[0], 0), []);
    }
  }

  // The complement of the folded sum.
  function Full(words: seq<Word>): (r: Word)
    ensures (r + Sum(words)) % 0xffff == 0
    ensures r == 0xffff <==> Sum(words) == 0
  {
    var s := Sum(words);
    if s == 0 then 0xffff
    else
      SameResidue(0xffff - Canonical(s), 0 - s, s);
      0xffff - Canonical(s)
  }

  /** Stored where a checksum of 0 was, with the machine's byte order, it makes the message 0 modulo 65535. */
  lemma FullCompletes(data: seq<Byte>)
    ensures (256 * Full(Loads(data)) + Message(data)) % 0xffff == 0
  {
    var f: int, s: int := Full(Loads(data)), Sum(Loads(data));
    SumIsMessage(data);
    LoadsAreSwapped(data);
    SameResidue(Message(data), 256 * s, 256 * f);
    var q := (f + s) / 0xffff;
    Shifted(256 * f + 256 * s, 0, 256 * q);
  }

  /** CSUM_IpHeader: the word that brings the sum of the header to 0 modulo 65535, if and only if the 32-bit sum overflowed a
      multiple of 65535 times and did not come back to 0; for the lengths an int can express, if it did not overflow. */
  method IpHeader(data: seq<Byte>) returns (r: Word)
    ensures r == Full(Loads(data)) <==> GoodCarries(Sum(Loads(data)))
    ensures |data| <= 0x7fff_ffff ==> (r == Full(Loads(data)) <==> Sum(Loads(data)) <= 0xffff_ffff)
    ensures |data| <= 131074 ==> r == Full(Loads(data)) && (256 * r + Message(data)) % 0xffff == 0
  {
    var checksum := Get16bSum(data);
    ghost var s := checksum;
    checksum := checksum / 0x1_0000 + checksum % 0x1_0000;
    FoldAgain(Fold(s));
    checksum := checksum + checksum / 0x1_0000;
    r := 0xffff - checksum % 0x1_0000;
    FullIff(Loads(data), s);
    HeaderCarries(data);
    FullCompletes(data);
  }

  lemma HeaderCarries(data: seq<Byte>)
    ensures |data| <= 0x7fff_ffff ==> (GoodCarries(Sum(Loads(data))) <==> Sum(Loads(data)) <= 0xffff_ffff)
    ensures |data| <= 131074 ==> GoodCarries(Sum(Loads(data)))
  {
    FewGoodCarries(Sum(Loads(data)), |Loads(data)|);
  }

  // Cutting the sum to 32 bits changes neither its residue modulo 65535 nor whether it is 0.
  predicate GoodCarries(sum: nat) {
    (sum / WORD) % 0xffff == 0 && (U32(sum) == 0 ==> sum == 0)
  }

  lemma FewGoodCarries(sum: nat, words: nat)
    requires sum <= 0xffff * words
    ensures words <= 0x4000_0000 ==> (GoodCarries(sum) <==> sum <= 0xffff_ffff)
    ensures words <= 65537 ==> GoodCarries(sum)
  {
  }

  lemma FullIff(words: seq<Word>, s: nat)
    requires s == U32(Sum(words))
    ensures 0xffff - Fold(Fold(s)) == Full(words) <==> GoodCarries(Sum(words))
  {
    TwoFolds(s);
    ResidueIff(Sum(words), s, Sum(words) / WORD);
    if s > 0 {
      CanonicalUnique(s, Fold(Fold(s)));
    }
  }

  // Adding the carry and dropping it is the same as folding, for the sums one fold leaves.
  lemma FoldAgain(x: nat)
    requires x <= 0x1_fffe
    ensures (x + x / 0x1_0000) % 0x1_0000 == Fold(x)
  {
  }

  /** The update agrees with recomputing: over a packet whose words are rest and olds, replacing olds by news gives the
      full checksum of the new words exactly when that is not 0, and 0xffff when it is. */
  lemma ChangeIsRecomputation(rest: seq<Word>, olds: seq<Word>, news: seq<Word>, checksum: Word)
    requires (Sum(rest + olds) + checksum) % 0xffff == 0
    ensures Changed(olds, news, checksum) == Full(rest + news) <==> Full(rest + news) != 0
    ensures Full(rest + news) == 0 ==> Changed(olds, news, checksum) == 0xffff
  {
    SumConcat(rest, olds);
    SumConcat(rest, news);
    ChangeKeepsValid(rest, olds, news, checksum);
    var c, f := Changed(olds, news, checksum), Full(rest + news);
    Cancel(Sum(rest + news), c, f);
    if f != 0 {
      CanonicalUnique(c, f);
      CanonicalUnique(c, c);
    }
  }

  lemma Cancel(s: int, a: int, b: int)
    requires (s + a) % 0xffff == 0 && (s + b) % 0xffff == 0
    ensures a % 0xffff == b % 0xffff
  {
    assert a == b + ((s + a) / 0xffff - (s + b) / 0xffff) * 0xffff;
  }

  lemma {:induction false} SumConcat(a: seq<Word>, b: seq<Word>)
    ensures Sum(a + b) == Sum(a) + Sum(b)
  {
    if b == [] {
      assert a + b == a;
    } else {
      SumConcat(a, b[..|b| - 1]);
      assert (a + b)[..|a + b| - 1] == a + b[..|b| - 1];
    }
  }

  // ----- The running sum.

  // Big-endian 16-bit words, an odd last byte padded with zero.
  function NetWords(data: seq<Byte>): (words: seq<Word>)
    ensures |words| == (|data| + 1) / 2
  {
    if data == [] then []
    else if |data| == 1 then [Pair(data[0], 0)]
    else [Pair(data[0], data[1])] + NetWords(data[2..])
  }

  lemma {:induction false} NetWordsAt(data: seq<Byte>, i: nat)
    requires i < |NetWords(data)|
    ensures NetWords(data)[i] == Pair(data[2 * i], if 2 * i + 1 < |data| then data[2 * i + 1] else 0)
  {
    if i == 0 {
    } else {
      NetWordsAt(data[2..], i - 1);
    }
  }

  lemma SumStep(words: seq<Word>, i: nat)
    requires i < |words|
    ensures Sum(words[..i + 1]) == Sum(words[..i]) + words[i]
  {
    assert words[..i + 1][..i] == words[..i];
  }

  /** IN_CHKSUM_AddRawWord: one fold is enough for one word. */
  function AddRawWord(current: Word, word: Word): (r: Word)
    ensures r % 0xffff == (current + word) % 0xffff
    ensures r == 0 <==> current == 0 && word == 0
  {
    OneFold(current + word);
    if current + word > 0xffff then Fold(current + word) else current + word
  }

  /** IN_CHKSUM_AddRaw adds the words of the data to a running sum, modulo 65535, if and only if the 32-bit sum overflowed a
      multiple of 65535 times; for the lengths a UINT can express, if it did not overflow. */
  method AddRaw(current: Word, data: seq<Byte>) returns (r: Word)
    ensures var total := current + Sum(NetWords(data));
            var right := r % 0xffff == (current + Message(data)) % 0xffff;
            && (right <==> (total / WORD) % 0xffff == 0)
            && (|data| <= 0xffff_ffff ==> (right <==> total <= 0xffff_ffff))
            && (|data| <= 131072 ==> right)
            && (r == 0 <==> U32(total) == 0)
  {
    SumIsMessage(data);
    SameResidue(Sum(NetWords(data)), Message(data), current);
    var checkSum := AddWords(current, data);
    ghost var rest := checkSum;
    while checkSum > 0xffff
      invariant checkSum % 0xffff == rest % 0xffff && (checkSum == 0 <==> rest == 0)
      decreases checkSum
    {
      OneFold(checkSum);
      checkSum := Fold(checkSum);
    }
    AddedIff(current, NetWords(data), rest);
    return checkSum;
  }

  lemma AddedIff(current: Word, words: seq<Word>, rest: nat)
    requires rest == U32(current + Sum(words))
    ensures var total := current + Sum(words);
            && (rest % 0xffff == total % 0xffff <==> (total / WORD) % 0xffff == 0)
            && (|words| <= 0x8000_0000 ==> (rest % 0xffff == total % 0xffff <==> total <= 0xffff_ffff))
            && (|words| <= 65536 ==> total <= 0xffff_ffff)
  {
    var total: nat := current + Sum(words);
    ResidueIff(total, rest, total / WORD);
    if |words| <= 0x8000_0000 {
      FewCarries(total, total / WORD);
    }
  }

  // The sum after the first k words, in 32 bits.
  function Running(current: Word, words: seq<Word>, k: nat): nat
    requires k <= |words|
  {
    U32(current + Sum(words[..k]))
  }

  lemma AddStep(current: Word, words: seq<Word>, k: nat, word: Word)
    requires k < |words| && words[k] == word
    ensures U32(Running(current, words, k) + word) == Running(current, words, k + 1)
  {
    SumStep(words, k);
    ModAdd(current + Sum(words[..k]), words[k]);
  }

  lemma RunningAll(current: Word, words: seq<Word>, k: nat)
    requires k == |words|
    ensures Running(current, words, k) == U32(current + Sum(words))
  {
    assert words[..k] == words;
  }

  // The loop over the words, two bytes at a time.
  method AddPairs(current: Word, data: seq<Byte>, pairs: nat) returns (checkSum: nat)
    requires pairs <= |NetWords(data)| && 2 * pairs <= |data|
    ensures checkSum == Running(current, NetWords(data), pairs)
  {
    checkSum := current;
    for k := 0 to pairs
      invariant checkSum == Running(current, NetWords(data), k)
    {
      NetWordsAt(data, k);
      AddStep(current, NetWords(data), k, Pair(data[2 * k], data[2 * k + 1]));
      checkSum := U32(checkSum + Pair(data[2 * k], data[2 * k + 1]));
    }
  }

  // A last odd byte is added too.
  method AddWords(current: Word, data: seq<Byte>) returns (checkSum: nat)
    ensures checkSum == U32(current + Sum(NetWords(data)))
  {
    var pairs := |data| / 2;
    checkSum := AddPairs(current, data, pairs);
    if 2 * pairs < |data| {
      NetWordsAt(data, pairs);
      AddStep(current, NetWords(data), pairs, Pair(data[2 * pairs], 0));
      checkSum := U32(checkSum + Pair(data[2 * pairs], 0));
      RunningAll(current, NetWords(data), pairs + 1);
    } else {
      RunningAll(current, NetWords(data), pairs);
    }
  }

  /** IN_CHKSUM_DelRaw takes the words of the data out of a running sum, modulo 65535. */
  method DelRaw(current: Word, data: seq<Byte>) returns (r: Word)
    ensures r % 0xffff == (current - Message(data)) % 0xffff
  {
    r := current;
    var pairs := |data| / 2;
    ghost var words := NetWords(data);
    for k := 0 to pairs
      invariant r % 0xffff == (current - Sum(words[..k])) % 0xffff
    {
      NetWordsAt(data, k);
      SumStep(words, k);
      TakeAway(r, current - Sum(words[..k]), words[k]);
      r := Minus(r, Pair(data[2 * k], data[2 * k + 1]));
    }
    if 2 * pairs < |data| {
      NetWordsAt(data, pairs);
      SumStep(words, pairs);
      TakeAway(r, current - Sum(words[..pairs]), words[pairs]);
      r := Minus(r, Pair(data[2 * pairs], 0));
    }
    assert words[..|words|] == words;
    SumIsMessage(data);
    TakenAway(current, Sum(words), Message(data));
  }

  lemma TakenAway(current: int, a: int, b: int)
    requires a % 0xffff == b % 0xffff
    ensures (current - a) % 0xffff == (current - b) % 0xffff
  {
    Shifted(current - a, current - b, b / 0xffff - a / 0xffff);
  }

  // Subtraction with an end-around borrow.
  function Minus(sum: Word, work: Word): Word {
    if sum < work then sum + 0xffff - work else sum - work
  }

  lemma TakeAway(sum: Word, x: int, work: Word)
    requires sum % 0xffff == x % 0xffff
    ensures Minus(sum, work) % 0xffff == (x - work) % 0xffff
  {
    SameResidue(sum, x, 0 - (work as int));
    SameResidue(sum + 0xffff, x, 0 - (work as int));
  }

  /** Whatever values the two calls return for the same data, removing undoes adding, up to the two zeros of
      one's-complement arithmetic. */
  lemma RemoveUndoesAdd(current: Word, data: seq<Byte>, added: Word, removed: Word)
    requires added % 0xffff == (current + Message(data)) % 0xffff
    requires removed % 0xffff == (added - Message(data)) % 0xffff
    ensures Canonical(removed) == Canonical(current)
  {
    var s: int := Message(data);
    SameResidue(added, current + s, 0 - s);
  }
}
