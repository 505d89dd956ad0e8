/**
 IPv4 prefixes and ranges: the masks of section 3.1 of RFC 4632, the split of a range into the fewest aligned blocks,
 and the split of a range along the subnets of one mask.
 */
module IpRange {
  import opened Bits

  const LAST_IP: nat := 0xffff_ffff

  type Range = (nat, nat)

  // PREFIX_2_MASK
  function PrefixMask(prefix: nat): (mask: nat)
    requires prefix <= 32
    ensures mask == WORD - Pow2(32 - prefix) <= LAST_IP
  {
    Shifted(prefix);
    if prefix == 32 then LAST_IP else Not(32, LAST_IP / Pow2(prefix))
  }

  // `0xffffffff >> prefix` is a run of 32 - prefix ones.
  lemma Shifted(prefix: nat)
    requires prefix <= 32
    ensures LAST_IP / Pow2(prefix) == Pow2(32 - prefix) - 1 < Pow2(32) == WORD
  {
    Pow2_32();
    Pow2Add(32 - prefix, prefix);
    Pow2Monotone(32 - prefix, 32);
    RunOfOnes(Pow2(32 - prefix), Pow2(prefix));
  }

  lemma RunOfOnes(n: int, m: int)
    requires m > 0
    ensures (n * m - 1) / m == n - 1
  {
    assert n * m - 1 == (n - 1) * m + (m - 1);
    DivModUnique(n * m - 1, m, n - 1, m - 1);
  }

  // IpMask_2_Range
  function MaskRange(ip: nat, mask: nat): Range
    requires mask <= LAST_IP
  {
    Pow2_32();
    (And(ip, mask), Or(ip, Not(32, mask)))
  }

  /** The range of a prefix is the aligned block of 2^(32 - prefix) addresses around the address. */
  lemma PrefixRange(ip: nat, prefix: nat)
    requires ip <= LAST_IP && prefix <= 32
    ensures var k := 32 - prefix;
            MaskRange(ip, PrefixMask(prefix)) == (ip - LowBits(ip, k), ip - LowBits(ip, k) + Pow2(k) - 1)
  {
    Shifted(prefix);
    Pow2_32();
    var k := 32 - prefix;
    AndDropsLow(ip, k, 32, PrefixMask(prefix));
    OrFillsLow(ip, k);
    assert Not(32, PrefixMask(prefix)) == Pow2(k) - 1;
  }

  /** For any mask: the first address keeps the bits under the mask and clears the others, the last one sets them. */
  lemma RangeBits(ip: nat, mask: nat, i: nat)
    requires ip <= LAST_IP && mask <= LAST_IP && i < 32
    ensures Bit(MaskRange(ip, mask).0, i) <==> Bit(ip, i) && Bit(mask, i)
    ensures Bit(MaskRange(ip, mask).1, i) <==> Bit(ip, i) || !Bit(mask, i)
  {
    Pow2_32();
    AndBit(ip, mask, i);
    OrBit(ip, Not(32, mask), i);
    NotBit(32, mask, i);
  }

  // IpMask_2_Range
  method IpMask2Range(ip: nat, mask: nat) returns (begin: nat, end: nat)
    requires ip <= LAST_IP && mask <= LAST_IP
    ensures begin <= ip <= end && (begin, end) == MaskRange(ip, mask)
    ensures forall prefix: nat :: prefix <= 32 && mask == PrefixMask(prefix) ==>
                               && begin == ip - LowBits(ip, 32 - prefix)
                               && end == begin + Pow2(32 - prefix) - 1
  {
    Pow2_32();
    begin, end := And(ip, mask), Or(ip, Not(32, mask));
    AndAtMost(ip, mask);
    OrAtLeast(ip, Not(32, mask));
    forall prefix: nat | prefix <= 32 && mask == PrefixMask(prefix)
      ensures begin == ip - LowBits(ip, 32 - prefix) && end == begin + Pow2(32 - prefix) - 1
    {
      PrefixRange(ip, prefix);
    }
  }

  // ----- From a mask back to its prefix.

  lemma {:induction false} RunBit(k: nat, i: nat)
    ensures Bit(Pow2(k) - 1, i) <==> i < k
  {
    if k == 0 {
      ZeroBit(i);
    } else {
      assert (Pow2(k) - 1) / 2 == Pow2(k - 1) - 1 && (Pow2(k) - 1) % 2 == 1;
      if i > 0 {
        RunBit(k - 1, i - 1);
      }
    }
  }

  // The mask of a prefix has its first bits set and no other.
  lemma MaskBit(prefix: nat, i: nat)
    requires prefix <= 32 && i < 32
    ensures Bit(PrefixMask(prefix), i) <==> i >= 32 - prefix
  {
    var low := Pow2(32 - prefix) - 1;
    Shifted(prefix);
    assert PrefixMask(prefix) == Not(32, low);
    NotBit(32, low, i);
    RunBit(32 - prefix, i);
  }

  // The number of leading ones.
  ghost predicate LeadingOnes(mask: nat, n: nat) {
    n <= 32 && (forall i :: 32 - n <= i < 32 ==> Bit(mask, i)) && (n < 32 ==> !Bit(mask, 31 - n))
  }

  // MASK_2_PREFIX
  method Mask2Prefix(mask: nat) returns (prefix: nat)
    requires mask <= LAST_IP
    ensures LeadingOnes(mask, prefix)
  {
    var i := 0;
    while i < 32
      invariant i <= 32 && forall j :: 32 - i <= j < 32 ==> Bit(mask, j)
    {
      AndPow2(mask, 31 - i);
      if And(mask, Pow2(31 - i)) == 0 {
        return i;
      }
      i := i + 1;
    }
    return 32;
  }

  /** MASK_2_PREFIX undoes PREFIX_2_MASK. */
  lemma PrefixOfMask(prefix: nat, n: nat)
    requires prefix <= 32 && LeadingOnes(PrefixMask(prefix), n)
    ensures n == prefix
  {
    if n < prefix {
      MaskBit(prefix, 31 - n);
    } else if prefix < n {
      MaskBit(prefix, 31 - prefix);
    }
  }

  /** MASK_IS_VALID accepts exactly the masks of the 33 prefix lengths. */
  method MaskIsValid(mask: nat) returns (valid: bool)
    requires mask <= LAST_IP
    ensures valid <==> exists prefix: nat :: prefix <= 32 && mask == PrefixMask(prefix)
  {
    var n := Mask2Prefix(mask);
    valid := mask == PrefixMask(n);
    if prefix: nat :| prefix <= 32 && mask == PrefixMask(prefix) {
      PrefixOfMask(prefix, n);
    }
  }

  // Both addresses lie in one block of the prefix length.
  predicate SameBlock(x: nat, y: nat, prefix: nat)
    requires prefix <= 32
  {
    x - LowBits(x, 32 - prefix) == y - LowBits(y, 32 - prefix)
  }

  lemma MaskedBlock(ip: nat, prefix: nat)
    requires ip <= LAST_IP && prefix <= 32
    ensures And(ip, PrefixMask(prefix)) == ip - LowBits(ip, 32 - prefix)
  {
    PrefixRange(ip, prefix);
  }

  lemma WholeSpace(ip: nat)
    requires ip <= LAST_IP
    ensures LowBits(ip, 32) == ip
  {
    Pow2_32();
    AllBits(ip, 32);
  }

  /** IP_GetMiniMask: the longest prefix of at most 31 bits that the two addresses share. */
  method GetMiniMask(start: nat, end: nat) returns (mask: nat)
    requires start <= LAST_IP && end <= LAST_IP
    ensures exists prefix: nat :: prefix <= 31 && mask == PrefixMask(prefix) && SameBlock(start, end, prefix)
                                  && forall q :: prefix < q <= 31 ==> !SameBlock(start, end, q)
  {
    var prefix := 31;
    while prefix > 0
      invariant prefix <= 31 && forall q :: prefix < q <= 31 ==> !SameBlock(start, end, q)
    {
      mask := PrefixMask(prefix);
      MaskedBlock(start, prefix);
      MaskedBlock(end, prefix);
      if And(start, mask) == And(end, mask) {
        return;
      }
      prefix := prefix - 1;
    }
    WholeSpace(start);
    WholeSpace(end);
    Pow2_32();
    assert PrefixMask(0) == 0 && SameBlock(start, end, 0);
    return 0;
  }

  // x is a multiple of 2^k.
  predicate Aligned(x: nat, k: nat) {
    LowBits(x, k) == 0
  }

  // The aligned block of 2^k addresses from begin on stays within the range.
  predicate BlockFits(begin: nat, end: nat, k: nat) {
    Aligned(begin, k) && begin + Pow2(k) - 1 <= end
  }

  // k is the order of the largest aligned block that starts at begin and stays within [begin, end].
  ghost predicate IsLargest(begin: nat, end: nat, k: nat) {
    k <= 32 && BlockFits(begin, end, k) && forall j :: k < j <= 32 ==> !BlockFits(begin, end, j)
  }

  lemma {:induction false} LargestExists(begin: nat, end: nat, top: nat) returns (k: nat)
    requires begin <= end && top <= 32 && forall j :: top < j <= 32 ==> !BlockFits(begin, end, j)
    ensures IsLargest(begin, end, k)
  {
    if top == 0 || BlockFits(begin, end, top) {
      assert Pow2(0) == 1;
      k := top;
    } else {
      k := LargestExists(begin, end, top - 1);
    }
  }

  ghost function Largest(begin: nat, end: nat): (k: nat)
    requires begin <= end
    ensures IsLargest(begin, end, k)
  {
    assert exists k: nat :: IsLargest(begin, end, k) by {
      var k := LargestExists(begin, end, 32);
    }
    var k: nat :| IsLargest(begin, end, k);
    k
  }

  /** Range_GetFirstMask: the mask of the largest aligned block that starts at begin and stays within [begin, end]. */
  method GetFirstMask(begin: nat, end: nat) returns (mask: nat)
    requires begin <= LAST_IP && end <= LAST_IP
    ensures begin <= end ==> mask == PrefixMask(32 - Largest(begin, end))
    ensures begin > end ==> mask == LAST_IP
  {
    mask := 0;
    var prefix := 0;
    assert Pow2(0) == 1;
    while prefix <= 32
      invariant 0 <= prefix <= 33
      invariant forall j :: 32 - prefix < j <= 32 ==> !BlockFits(begin, end, j)
      invariant prefix > 0 ==> mask == PrefixMask(prefix - 1)
    {
      mask := PrefixMask(prefix);
      var start, stop := IpMask2Range(begin, mask);
      if start >= begin && stop <= end {
        assert BlockFits(begin, end, 32 - prefix);
        break;
      }
      prefix := prefix + 1;
    }
  }

  // ----- Splitting a range into blocks.

  // The orders of the blocks peeled off [begin, end] one after the other.
  ghost function Peel(begin: nat, end: nat): (orders: seq<nat>)
    decreases end + 1 - begin
  {
    if begin > end then []
    else
      var k := Largest(begin, end);
      [k] + Peel(begin + Pow2(k), end)
  }

  // The blocks with the given orders, laid end to end from begin on.
  function Blocks(begin: nat, orders: seq<nat>): (blocks: seq<Range>)
    ensures |blocks| == |orders|
    decreases |orders|
  {
    if orders == [] then []
    else [(begin, begin + Pow2(orders[0]) - 1)] + Blocks(begin + Pow2(orders[0]), orders[1..])
  }

  // The blocks are aligned and tile [begin, end]: they follow each other without gap or overlap.
  predicate Tiles(orders: seq<nat>, begin: nat, end: nat)
    decreases |orders|
  {
    if orders == [] then begin == end + 1
    else BlockFits(begin, end, orders[0]) && Tiles(orders[1..], begin + Pow2(orders[0]), end)
  }

  /** The peeled blocks partition the range. */
  lemma {:induction false} PeelTiles(begin: nat, end: nat)
    requires begin <= end + 1
    ensures Tiles(Peel(begin, end), begin, end)
    decreases end + 1 - begin
  {
    if begin > end {
    } else {
      PeelTiles(begin + Pow2(Largest(begin, end)), end);
    }
  }

  /** A tiling has every address of the range in exactly one block, and no other address in any. */
  lemma {:induction false} TilesCover(orders: seq<nat>, begin: nat, end: nat, ip: nat)
    requires Tiles(orders, begin, end)
    ensures Hits(ip, Blocks(begin, orders)) == if begin <= ip <= end then 1 else 0
    decreases |orders|
  {
    if orders == [] {
    } else {
      TilesCover(orders[1..], begin + Pow2(orders[0]), end, ip);
      TilesForward(orders[1..], begin + Pow2(orders[0]), end);
    }
  }

  lemma {:induction false} TilesForward(orders: seq<nat>, begin: nat, end: nat)
    requires Tiles(orders, begin, end)
    ensures begin <= end + 1
  {
  }

  // In how many blocks an address lies.
  function Hits(ip: nat, blocks: seq<Range>): nat {
    if blocks == [] then 0 else (if InRange(ip, blocks[0]) then 1 else 0) + Hits(ip, blocks[1..])
  }

  predicate InRange(ip: nat, block: Range) {
    block.0 <= ip <= block.1
  }

  // ----- How many blocks there are.

  lemma {:induction false} DividesBelow(x: nat, j: nat, k: nat)
    requires j <= k && Aligned(x, k)
    ensures Aligned(x, j)
  {
    if j == 0 {
    } else {
      DividesBelow(x / 2, j - 1, k - 1);
    }
  }

  // The next multiple of a power is a whole power away.
  lemma {:induction false} NextMultiple(x: nat, y: nat, k: nat)
    requires Aligned(x, k) && Aligned(y, k) && x < y
    ensures x + Pow2(k) <= y
  {
    if k == 0 {
    } else {
      NextMultiple(x / 2, y / 2, k - 1);
    }
  }

  lemma {:induction false} ZeroAligned(k: nat)
    ensures Aligned(0, k)
  {
    if k == 0 {
    } else {
      ZeroAligned(k - 1);
    }
  }

  lemma AlignedStep(x: nat, k: nat)
    requires k > 0
    ensures Aligned(x, k) <==> x % 2 == 0 && Aligned(x / 2, k - 1)
  {
  }

  lemma {:induction false} AddMultiple(x: nat, k: nat)
    requires Aligned(x, k)
    ensures Aligned(x + Pow2(k), k)
    ensures !Aligned(x, k + 1) ==> Aligned(x + Pow2(k), k + 1)
  {
    var y := x + Pow2(k);
    AlignedStep(x, k + 1);
    AlignedStep(y, k + 1);
    if k == 0 {
    } else {
      AlignedStep(x, k);
      AlignedStep(y, k);
      HalfSum(x, Pow2(k - 1), Pow2(k));
      AddMultiple(x / 2, k - 1);
    }
  }

  lemma HalfSum(x: nat, p: nat, q: nat)
    requires q == 2 * p
    ensures (x + q) / 2 == x / 2 + p && (x + q) % 2 == x % 2
  {
  }

  // Once a range is shorter than the alignment of its begin, the orders fall.
  lemma {:induction false} FallingPeel(begin: nat, end: nat, k: nat)
    requires Aligned(begin, k) && begin <= end + 1 && end + 1 - begin < Pow2(k) && k <= 32
    ensures |Peel(begin, end)| <= k
    decreases end + 1 - begin
  {
    if begin > end {
    } else {
      var m := Largest(begin, end);
      assert m < k by {
        if m >= k { Pow2Monotone(k, m); }
      }
      DividesBelow(begin, m + 1, k);
      assert !BlockFits(begin, end, m + 1);
      AddMultiple(begin, m);
      FallingPeel(begin + Pow2(m), end, m);
    }
  }

  lemma BelowAlignment(begin: nat, k: nat)
    requires Aligned(begin, k) && 0 < begin <= LAST_IP
    ensures k < 32 && Pow2(k) <= begin
  {
    ZeroAligned(k);
    NextMultiple(0, begin, k);
    Pow2_32();
    if k >= 32 {
      Pow2Monotone(32, k);
    }
  }

  // The block is as large as the rest allows: the orders fall from here on.
  lemma RisingTop(begin: nat, end: nat)
    requires begin <= end <= LAST_IP && Aligned(begin, Largest(begin, end) + 1)
    ensures |Peel(begin, end)| <= (if begin > 0 then 31 else 32)
  {
    var k := Largest(begin, end);
    Pow2_32();
    if k == 32 {
      assert Peel(begin + Pow2(32), end) == [];
    } else {
      assert !BlockFits(begin, end, k + 1);
      FallingPeel(begin, end, k + 1);
      if begin > 0 {
        BelowAlignment(begin, k + 1);
      }
    }
  }

  // Before that they rise: each block is as large as the alignment of its begin allows.
  lemma {:induction false} RisingPeel(begin: nat, end: nat, j: nat)
    requires Aligned(begin, j) && begin <= end + 1 && end <= LAST_IP && j <= 31 && (j == 0 || begin > 0)
    ensures |Peel(begin, end)| <= 62 - j
    decreases end + 1 - begin
  {
    if begin > end {
    } else {
      var k := Largest(begin, end);
      if !BlockFits(begin, end, j) {
        FallingPeel(begin, end, j);
      } else if Aligned(begin, k + 1) {
        RisingTop(begin, end);
      } else {
        ZeroAligned(k + 1);
        BelowAlignment(begin, k);
        AddMultiple(begin, k);
        if begin + Pow2(k) <= end {
          BelowAlignment(begin + Pow2(k), k + 1);
          RisingPeel(begin + Pow2(k), end, k + 1);
        }
      }
    }
  }

  /** A range splits into at most 62 blocks. */
  lemma AtMost62(begin: nat, end: nat)
    requires begin <= end + 1 && end <= LAST_IP
    ensures |Peel(begin, end)| <= 62
  {
    assert Pow2(0) == 1;
    RisingPeel(begin, end, 0);
  }

  // How many of the blocks have order m.
  function Times(orders: seq<nat>, m: nat): nat {
    if orders == [] then 0 else (if orders[0] == m then 1 else 0) + Times(orders[1..], m)
  }

  lemma TimesFirst(begin: nat, end: nat, m: nat)
    requires begin <= end
    ensures var k := Largest(begin, end);
            Times(Peel(begin, end), m) == (if k == m then 1 else 0) + Times(Peel(begin + Pow2(k), end), m)
  {
    var k := Largest(begin, end);
    assert ([k] + Peel(begin + Pow2(k), end))[1..] == Peel(begin + Pow2(k), end);
  }

  lemma {:induction false} FallingOnce(begin: nat, end: nat, k: nat, m: nat)
    requires Aligned(begin, k) && begin <= end + 1 && end + 1 - begin < Pow2(k) && k <= 32
    ensures Times(Peel(begin, end), m) <= (if m < k then 1 else 0)
    decreases end + 1 - begin
  {
    if begin > end {
    } else {
      var j := Largest(begin, end);
      assert j < k by {
        if j >= k { Pow2Monotone(k, j); }
      }
      DividesBelow(begin, j + 1, k);
      assert !BlockFits(begin, end, j + 1);
      AddMultiple(begin, j);
      TimesFirst(begin, end, m);
      FallingOnce(begin + Pow2(j), end, j, m);
    }
  }

  lemma TopOnce(begin: nat, end: nat, m: nat)
    requires begin <= end <= LAST_IP && Aligned(begin, Largest(begin, end) + 1)
    ensures Times(Peel(begin, end), m) <= (if m <= Largest(begin, end) then 1 else 0)
  {
    var k := Largest(begin, end);
    Pow2_32();
    if k == 32 {
      TimesFirst(begin, end, m);
      assert Peel(begin + Pow2(k), end) == [];
    } else {
      assert !BlockFits(begin, end, k + 1);
      FallingOnce(begin, end, k + 1, m);
    }
  }

  lemma {:induction false} RisingTwice(begin: nat, end: nat, j: nat, m: nat)
    requires Aligned(begin, j) && begin <= end + 1 && end <= LAST_IP && j <= 32
    ensures Times(Peel(begin, end), m) <= (if m < j then 1 else 2)
    decreases end + 1 - begin
  {
    if begin > end {
    } else {
      var k := Largest(begin, end);
      if !BlockFits(begin, end, j) {
        FallingOnce(begin, end, j, m);
      } else if Aligned(begin, k + 1) {
        TopOnce(begin, end, m);
      } else {
        assert k >= j;
        AddMultiple(begin, k);
        TimesFirst(begin, end, m);
        BlockEnds(begin, end);
        NoLargerThanWord(begin, k);
        RisingTwice(begin + Pow2(k), end, k + 1, m);
      }
    }
  }

  // An address that is no multiple of 2^(k+1) has k below 32, if a block of that order is below 2^32.
  lemma NoLargerThanWord(begin: nat, k: nat)
    requires Aligned(begin, k) && !Aligned(begin, k + 1) && begin <= LAST_IP && k <= 32
    ensures k < 32
  {
    ZeroAligned(k + 1);
    if begin > 0 {
      BelowAlignment(begin, k);
    }
  }

  /** No block size occurs more than twice. */
  lemma AtMostTwice(begin: nat, end: nat, m: nat)
    requires begin <= end + 1 && end <= LAST_IP
    ensures Times(Peel(begin, end), m) <= 2
  {
    assert Pow2(0) == 1;
    RisingTwice(begin, end, 0, m);
  }

  // ----- A range that needs all 62.

  lemma LargestIs(begin: nat, end: nat, k: nat)
    requires begin <= end && IsLargest(begin, end, k)
    ensures Largest(begin, end) == k
  {
    var j := Largest(begin, end);
    assert BlockFits(begin, end, j) && BlockFits(begin, end, k);
  }

  // A power is aligned to its own order and no other.
  lemma PowerAligned(k: nat, j: nat)
    ensures Aligned(Pow2(k), k) && (j > k ==> !Aligned(Pow2(k), j))
  {
    ZeroAligned(k);
    AddMultiple(0, k);
    if j > k && Aligned(Pow2(k), j) {
      ZeroAligned(j);
      NextMultiple(0, Pow2(k), j);
      Pow2Monotone(k, j);
    }
  }

  // The second half of [1, 2^32 - 2], from 2^32 - 2^k on: each block is half of what is left, rounded up.
  lemma {:induction false} FallingHalf(begin: nat, end: nat, k: nat)
    requires end == LAST_IP - 1 && k <= 32 && begin + Pow2(k) == WORD && Aligned(begin, k)
    ensures |Peel(begin, end)| == k
    decreases k
  {
    if k == 0 {
    } else {
      var j := k - 1;
      DividesBelow(begin, j, k);
      assert BlockFits(begin, end, j);
      forall i | j < i <= 32
        ensures !BlockFits(begin, end, i)
      {
        Pow2Monotone(k, i);
      }
      LargestIs(begin, end, j);
      AddMultiple(begin, j);
      FallingHalf(begin + Pow2(j), end, j);
    }
  }

  // From 2^j on, each block is as large as its begin.
  lemma {:induction false} RisingHalf(begin: nat, end: nat, j: nat)
    requires end == LAST_IP - 1 && j <= 31 && begin == Pow2(j)
    ensures |Peel(begin, end)| == 62 - j
    decreases 31 - j
  {
    Pow2_32();
    Pow2Monotone(j, 31);
    PowerAligned(j, j + 1);
    if j == 31 {
      assert begin + Pow2(31) == WORD;
      FallingHalf(begin, end, 31);
    } else {
      Pow2Monotone(j + 1, 31);
      assert BlockFits(begin, end, j);
      forall i | j < i <= 32
        ensures !BlockFits(begin, end, i)
      {
        PowerAligned(j, i);
      }
      LargestIs(begin, end, j);
      RisingHalf(begin + Pow2(j), end, j + 1);
    }
  }

  /** The bound is exact: 0.0.0.1 to 255.255.255.254 splits into 62 blocks, and no other way takes fewer. */
  lemma SixtyTwoNeeded(orders: seq<nat>)
    ensures |Peel(1, LAST_IP - 1)| == 62
    ensures Tiles(orders, 1, LAST_IP - 1) ==> |orders| >= 62
  {
    assert Pow2(0) == 1;
    RisingHalf(1, LAST_IP - 1, 0);
    if Tiles(orders, 1, LAST_IP - 1) {
      PeelIsShortest(1, LAST_IP - 1, orders);
    }
  }

  // ----- No other split is shorter.

  // The blocks of any tiling reach the end of the peeled block exactly.
  lemma {:induction false} Reaches(orders: seq<nat>, x: nat, end: nat, target: nat, k: nat) returns (i: nat)
    requires Tiles(orders, x, end) && orders != [] && Pow2(k) <= target
    requires Aligned(target, k) && Aligned(target - Pow2(k), k) && target <= end + 1
    requires target - Pow2(k) <= x < target && (x == target - Pow2(k) ==> orders[0] <= k)
    ensures 1 <= i <= |orders| && Tiles(orders[i..], target, end)
    decreases |orders|
  {
    var m := orders[0];
    var y := x + Pow2(m);
    if m > k {
      DividesBelow(x, k, m);
      NextMultiple(target - Pow2(k), x, k);
    }
    DividesBelow(target, m, k);
    NextMultiple(x, target, m);
    if y == target {
      i := 1;
    } else {
      var rest := Reaches(orders[1..], y, end, target, k);
      i := rest + 1;
      assert orders[1..][rest..] == orders[i..];
    }
  }

  /** The peeling is optimal: no tiling of the range by aligned blocks uses fewer of them. */
  lemma {:induction false} PeelIsShortest(begin: nat, end: nat, orders: seq<nat>)
    requires begin <= end + 1 && end <= LAST_IP && Tiles(orders, begin, end)
    ensures |Peel(begin, end)| <= |orders|
    decreases end + 1 - begin
  {
    if begin > end {
    } else {
      var k := Largest(begin, end);
      FirstOrder(begin, end, orders);
      AddMultiple(begin, k);
      BlockEnds(begin, end);
      var i := Reaches(orders, begin, end, begin + Pow2(k), k);
      PeelIsShortest(begin + Pow2(k), end, orders[i..]);
    }
  }

  // No tiling starts with a larger block than the peeling.
  lemma FirstOrder(begin: nat, end: nat, orders: seq<nat>)
    requires begin <= end <= LAST_IP && Tiles(orders, begin, end)
    ensures orders != [] && orders[0] <= Largest(begin, end)
  {
    var m := orders[0];
    assert BlockFits(begin, end, m);
    if m > 32 {
      Pow2_32();
      Pow2Monotone(33, m);
    }
  }

  lemma BlockEnds(begin: nat, end: nat)
    requires begin <= end
    ensures begin + Pow2(Largest(begin, end)) <= end + 1
  {
    assert BlockFits(begin, end, Largest(begin, end));
  }

  // ----- The loop of IPList_Range2SubNetList.

  // The loop variable after n rounds, as long as the guard holds.
  ghost function After(step: nat -> nat, begin: nat, end: nat, n: nat): nat
    decreases n
  {
    if n == 0 || begin > end then begin else After(step, step(begin), end, n - 1)
  }

  ghost predicate Ends(step: nat -> nat, begin: nat, end: nat) {
    exists n: nat :: After(step, begin, end, n) > end
  }

  // One round leads from an address of the range to the 32-bit successor of the same or a later one.
  ghost predicate Advances(step: nat -> nat, end: nat) {
    forall b: nat :: b <= end ==> step(b) <= LAST_IP && (end < LAST_IP ==> b < step(b))
  }

  lemma {:induction false} StaysAWord(step: nat -> nat, begin: nat, end: nat, n: nat)
    requires Advances(step, end) && begin <= LAST_IP
    ensures After(step, begin, end, n) <= LAST_IP
    decreases n
  {
    if n == 0 || begin > end {
    } else {
      StaysAWord(step, step(begin), end, n - 1);
    }
  }

  lemma {:induction false} SomeRounds(step: nat -> nat, begin: nat, end: nat) returns (n: nat)
    requires Advances(step, end) && end < LAST_IP
    ensures After(step, begin, end, n) > end
    decreases (end as int) + 1 - begin
  {
    if begin > end {
      n := 0;
    } else {
      var rest := SomeRounds(step, step(begin), end);
      n := rest + 1;
    }
  }

  lemma EndsIff(step: nat -> nat, begin: nat, end: nat)
    requires Advances(step, end) && begin <= LAST_IP && end <= LAST_IP
    ensures Ends(step, begin, end) <==> end != LAST_IP
  {
    if end == LAST_IP {
      forall n: nat
        ensures After(step, begin, end, n) <= end
      {
        StaysAWord(step, begin, end, n);
      }
    } else {
      var n := SomeRounds(step, begin, end);
    }
  }

  // One round of IPList_Range2SubNetList, in 32-bit arithmetic.
  ghost function PeelStep(end: nat): nat -> nat {
    (b: nat) => if b <= end then U32(b + Pow2(Largest(b, end))) else b
  }

  // One round of IP_SPLIT_SUBNET_BY_MASK.
  ghost function SplitStep(end: nat, mask: nat): nat -> nat
    requires mask <= LAST_IP
  {
    (b: nat) =>
      var last := MaskRange(b, mask).1;
      U32((if last > end then end else last) + 1)
  }

  lemma PeelAdvances(end: nat)
    requires end <= LAST_IP
    ensures Advances(PeelStep(end), end)
  {
    forall b: nat | b <= end
      ensures PeelStep(end)(b) <= LAST_IP && (end < LAST_IP ==> b < PeelStep(end)(b))
    {
      BlockEnds(b, end);
    }
  }

  lemma SplitAdvances(end: nat, mask: nat)
    requires end <= LAST_IP && mask <= LAST_IP
    ensures Advances(SplitStep(end, mask), end)
  {
    forall b: nat | b <= end
      ensures SplitStep(end, mask)(b) <= LAST_IP && (end < LAST_IP ==> b < SplitStep(end, mask)(b))
    {
      Pow2_32();
      OrAtLeast(b, Not(32, mask));
    }
  }

  lemma {:induction false} LowBelow(x: nat, k: nat)
    ensures LowBits(x, k) < Pow2(k)
    decreases k
  {
    if k == 0 {
    } else {
      LowBelow(x / 2, k - 1);
    }
  }

  /** Both loops end exactly when the range does not end at 255.255.255.255: there the loop variable wraps to 0. */
  lemma EndsUnlessLastAddress(begin: nat, end: nat, mask: nat)
    requires begin <= LAST_IP && end <= LAST_IP && mask <= LAST_IP
    ensures Ends(PeelStep(end), begin, end) <==> end != LAST_IP
    ensures Ends(SplitStep(end, mask), begin, end) <==> end != LAST_IP
  {
    PeelAdvances(end);
    SplitAdvances(end, mask);
    EndsIff(PeelStep(end), begin, end);
    EndsIff(SplitStep(end, mask), begin, end);
  }

  lemma FirstBlock(begin: nat, end: nat)
    requires begin <= end
    ensures var next := begin + Pow2(Largest(begin, end));
            Blocks(begin, Peel(begin, end)) == [(begin, next - 1)] + Blocks(next, Peel(next, end))
  {
    var k := Largest(begin, end);
    var rest := Peel(begin + Pow2(k), end);
    assert ([k] + rest)[1..] == rest;
  }

  // What one round of the loop adds to the list is the next peeled block.
  lemma Round(list: seq<Range>, begin: nat, end: nat, start: nat, stop: nat)
    requires begin <= end < LAST_IP && start == begin && stop == begin + Pow2(Largest(begin, end)) - 1
    ensures (list + [(start, stop)]) + Blocks(stop + 1, Peel(stop + 1, end)) == list + Blocks(begin, Peel(begin, end))
    ensures begin < stop + 1 <= end + 1 && U32(stop + 1) == stop + 1
  {
    FirstBlock(begin, end);
    BlockEnds(begin, end);
    assert (list + [(start, stop)]) + Blocks(stop + 1, Peel(stop + 1, end))
           == list + ([(start, stop)] + Blocks(stop + 1, Peel(stop + 1, end)));
  }

  // The block whose mask Range_GetFirstMask finds.
  method FirstRange(begin: nat, end: nat) returns (start: nat, stop: nat)
    requires begin <= end < LAST_IP
    ensures start == begin && stop == begin + Pow2(Largest(begin, end)) - 1
  {
    var mask := GetFirstMask(begin, end);
    start, stop := IpMask2Range(begin, mask);
    assert BlockFits(begin, end, Largest(begin, end));
  }

  /** IPList_Range2SubNetList appends the peeled blocks. */
  method Range2SubNetList(list: seq<Range>, begin: nat, end: nat) returns (result: seq<Range>)
    requires begin <= LAST_IP && end < LAST_IP
    ensures result == list + Blocks(begin, Peel(begin, end))
  {
    result := list;
    var beginTmp := begin;
    ghost var whole := list + Blocks(begin, Peel(begin, end));
    while beginTmp <= end
      invariant result + Blocks(beginTmp, Peel(beginTmp, end)) == whole
      decreases end + 1 - beginTmp
    {
      var start, stop := FirstRange(beginTmp, end);
      Round(result, beginTmp, end, start, stop);
      result := result + [(start, stop)];
      beginTmp := U32(stop + 1);
    }
  }

  // ----- Splitting along the subnets of one mask.

  // The piece lies inside one subnet of `size` addresses, and the range goes on, if at all, in the next subnet.
  predicate OneSubnet(lo: nat, hi: nat, end: nat, size: nat)
    requires size > 0
  {
    lo <= hi <= end && lo / size == hi / size && (hi < end ==> (hi + 1) / size == hi / size + 1)
  }

  // The pieces cover the addresses from begin up to but not including mid, in order.
  predicate SubnetPieces(pieces: seq<Range>, begin: nat, mid: nat, end: nat, size: nat)
    requires size > 0
    decreases |pieces|
  {
    if pieces == [] then begin == mid
    else
      var n := |pieces| - 1;
      var (lo, hi) := pieces[n];
      hi + 1 == mid && OneSubnet(lo, hi, end, size) && SubnetPieces(pieces[..n], begin, lo, end, size)
  }

  lemma AppendPiece(pieces: seq<Range>, begin: nat, mid: nat, hi: nat, end: nat, size: nat)
    requires size > 0 && SubnetPieces(pieces, begin, mid, end, size) && OneSubnet(mid, hi, end, size)
    ensures SubnetPieces(pieces + [(mid, hi)], begin, hi + 1, end, size)
  {
    assert (pieces + [(mid, hi)])[..|pieces|] == pieces;
  }

  // The addresses from ip to the end of its block are in one subnet, the one after is in the next.
  lemma BlockSubnet(ip: nat, size: nat, x: nat)
    requires size > 0 && ip <= x <= ip - ip % size + size - 1
    ensures ip / size == x / size
    ensures (ip - ip % size + size) / size == ip / size + 1
  {
    var q := ip / size;
    assert ip - ip % size == q * size;
    assert (q + 1) * size == q * size + size;
    DivModUnique(x, size, q, x - q * size);
    DivModUnique(q * size + size, size, q + 1, 0);
  }

  // The pieces cover the addresses from begin up to but not including mid, in order.
  predicate Consecutive(pieces: seq<Range>, begin: nat, mid: nat)
    decreases |pieces|
  {
    if pieces == [] then begin == mid
    else
      var n := |pieces| - 1;
      var (lo, hi) := pieces[n];
      lo <= hi && hi + 1 == mid && Consecutive(pieces[..n], begin, lo)
  }

  lemma AppendConsecutive(pieces: seq<Range>, begin: nat, mid: nat, hi: nat)
    requires Consecutive(pieces, begin, mid) && mid <= hi
    ensures Consecutive(pieces + [(mid, hi)], begin, hi + 1)
  {
    assert (pieces + [(mid, hi)])[..|pieces|] == pieces;
  }

  lemma {:induction false} OrAtLeast(x: nat, y: nat)
    ensures Or(x, y) >= x
  {
    if x == 0 {
    } else {
      OrAtLeast(x / 2, y / 2);
    }
  }

  // mask is that of the prefix.
  ghost predicate IsPrefix(mask: nat, prefix: nat) {
    prefix <= 32 && mask == PrefixMask(prefix)
  }

  // The last address of the range with the same bits under the mask as `begin` that IpMask_2_Range gives.
  function LastUnder(begin: nat, end: nat, mask: nat): nat
    requires mask <= LAST_IP
  {
    var last := MaskRange(begin, mask).1;
    if last > end then end else last
  }

  // Every piece goes as far as the mask lets it.
  predicate CutByMask(pieces: seq<Range>, end: nat, mask: nat)
    requires mask <= LAST_IP
  {
    forall k :: 0 <= k < |pieces| ==> pieces[k].1 == LastUnder(pieces[k].0, end, mask)
  }

  // One round: from an address of the range to the last one with the same bits under the mask, or to the end.
  method NetPiece(begin: nat, end: nat, mask: nat) returns (netStart: nat, netEnd: nat)
    requires begin <= end < LAST_IP && mask <= LAST_IP
    ensures netStart == begin <= netEnd <= end && netEnd == LastUnder(begin, end, mask)
    ensures forall prefix: nat :: IsPrefix(mask, prefix) ==> OneSubnet(begin, netEnd, end, Pow2(32 - prefix))
  {
    netStart, netEnd := IpMask2Range(begin, mask);
    ghost var last := netEnd;
    if netStart < begin { netStart := begin; }
    if netEnd > end { netEnd := end; }
    forall prefix: nat | IsPrefix(mask, prefix)
      ensures OneSubnet(begin, netEnd, end, Pow2(32 - prefix))
    {
      PieceInSubnet(begin, end, last, 32 - prefix);
    }
  }

  lemma PieceInSubnet(begin: nat, end: nat, last: nat, k: nat)
    requires begin <= end && last == begin - LowBits(begin, k) + Pow2(k) - 1
    ensures OneSubnet(begin, if last > end then end else last, end, Pow2(k))
  {
    LowBitsMod(begin, k);
    LowBelow(begin, k);
    BlockSubnet(begin, Pow2(k), last);
    BlockSubnet(begin, Pow2(k), if last > end then end else last);
  }

  // If the mask is contiguous, the pieces are cut at the borders of its subnets.
  ghost predicate CutAtBorders(pieces: seq<Range>, begin: nat, mid: nat, end: nat, mask: nat) {
    forall prefix: nat :: IsPrefix(mask, prefix) ==> SubnetPieces(pieces, begin, mid, end, Pow2(32 - prefix))
  }

  lemma CutNext(pieces: seq<Range>, begin: nat, mid: nat, hi: nat, end: nat, mask: nat)
    requires CutAtBorders(pieces, begin, mid, end, mask)
    requires forall prefix: nat :: IsPrefix(mask, prefix) ==> OneSubnet(mid, hi, end, Pow2(32 - prefix))
    ensures CutAtBorders(pieces + [(mid, hi)], begin, hi + 1, end, mask)
  {
    forall prefix: nat | IsPrefix(mask, prefix)
      ensures SubnetPieces(pieces + [(mid, hi)], begin, hi + 1, end, Pow2(32 - prefix))
    {
      AppendPiece(pieces, begin, mid, hi, end, Pow2(32 - prefix));
    }
  }

  /** IP_SPLIT_SUBNET_BY_MASK cuts [begin, end] into consecutive pieces for any mask, and for a contiguous one at the subnet
      borders. */
  method SplitByMask(begin: nat, end: nat, mask: nat) returns (pieces: seq<Range>)
    requires begin <= LAST_IP && end < LAST_IP && mask <= LAST_IP
    ensures begin <= end ==> Consecutive(pieces, begin, end + 1) && CutByMask(pieces, end, mask)
    ensures begin <= end ==> CutAtBorders(pieces, begin, end + 1, end, mask)
    ensures begin > end ==> pieces == []
  {
    pieces := [];
    var beginTmp := begin;
    while beginTmp <= end
      invariant begin <= end ==> beginTmp <= end + 1
      invariant Consecutive(pieces, begin, beginTmp) && CutByMask(pieces, end, mask)
      invariant CutAtBorders(pieces, begin, beginTmp, end, mask)
      invariant begin > end ==> pieces == [] && beginTmp == begin
      decreases end + 1 - beginTmp
    {
      var netStart, netEnd := NetPiece(beginTmp, end, mask);
      AppendConsecutive(pieces, begin, beginTmp, netEnd);
      CutNext(pieces, begin, beginTmp, netEnd, end, mask);
      pieces := pieces + [(netStart, netEnd)];
      beginTmp := U32(netEnd + 1);
    }
  }
}
