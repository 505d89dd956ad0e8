/**
 Filling the tables of the matcher, and the matcher that lists all rules: what BITMATCH_AddRule and BITMATCH_DelRule do
 to the rule bits, and the set of rules that _bitmatch_match8 computes.
 */
module BitmatchRules {
  import opened Bits
  import opened Bitmatch

  // ----- One bit of one byte.

  lemma {:induction false} OrBelow(x: nat, y: nat, n: nat)
    requires x < Pow2(n) && y < Pow2(n)
    ensures Or(x, y) < Pow2(n)
  {
    if n == 0 {
    } else {
      OrBelow(x / 2, y / 2, n - 1);
    }
  }

  lemma {:induction false} PowerBit(k: nat, i: nat)
    ensures Bit(Pow2(k), i) <==> i == k
  {
    if k == 0 {
      if i > 0 {
        ZeroBit(i - 1);
      }
    } else {
      assert Pow2(k) / 2 == Pow2(k - 1) && Pow2(k) % 2 == 0;
      if i > 0 {
        PowerBit(k - 1, i - 1);
      }
    }
  }

  // `byte |= 1 << k`
  function Raise(byte: Byte, k: nat): (r: Byte)
    requires k < 8
    ensures forall i :: 0 <= i < 8 ==> (Bit(r, i) <==> Bit(byte, i) || i == k)
  {
    Pow2_8();
    Pow2Monotone(k, 8);
    OrBelow(byte, Pow2(k), 8);
    assert forall i :: 0 <= i < 8 ==> (Bit(Or(byte, Pow2(k)), i) <==> Bit(byte, i) || i == k) by {
      forall i | 0 <= i < 8
        ensures Bit(Or(byte, Pow2(k)), i) <==> Bit(byte, i) || i == k
      {
        OrBit(byte, Pow2(k), i);
        PowerBit(k, i);
      }
    }
    Or(byte, Pow2(k))
  }

  // `byte &= ~(1 << k)`
  function Lower(byte: Byte, k: nat): (r: Byte)
    requires k < 8
    ensures forall i :: 0 <= i < 8 ==> (Bit(r, i) <==> Bit(byte, i) && i != k)
  {
    Pow2Monotone(k, 8);
    AndAtMost(byte, Not(8, Pow2(k)));
    assert forall i :: 0 <= i < 8 ==> (Bit(And(byte, Not(8, Pow2(k))), i) <==> Bit(byte, i) && i != k) by {
      forall i | 0 <= i < 8
        ensures Bit(And(byte, Not(8, Pow2(k))), i) <==> Bit(byte, i) && i != k
      {
        AndBit(byte, Not(8, Pow2(k)), i);
        NotBit(8, Pow2(k), i);
        PowerBit(k, i);
      }
    }
    And(byte, Not(8, Pow2(k)))
  }

  // ----- One bit of the tables.

  // The place of a rule bit in a table.
  predicate Place(t: Table, index: nat, pos: nat, r: nat) {
    index < t.tabNum && pos < Pow2(t.segBits) && r < 8 * t.RowBytes()
  }

  lemma PlaceInBounds(t: Table, index: nat, pos: nat, r: nat)
    requires t.Valid() && Place(t, index, pos, r)
    ensures t.Row(index, pos) + r / 8 < |t.mem|
  {
    RowInBounds(t, index, pos);
  }

  // Different places are different bits.
  lemma PlacesDiffer(t: Table, i: nat, p: nat, r: nat, j: nat, q: nat, s: nat)
    requires t.Valid() && Place(t, i, p, r) && Place(t, j, q, s)
    requires t.Row(i, p) + r / 8 == t.Row(j, q) + s / 8
    ensures i == j && p == q && r / 8 == s / 8
  {
    if i < j || (i == j && p < q) {
      RowsDisjoint(t, i, p, j, q);
    } else if j < i || (i == j && q < p) {
      RowsDisjoint(t, j, q, i, p);
    }
  }

  // The bit of a rule in a row, counted from the start of the tables.
  function BitAddress(t: Table, index: nat, pos: nat, r: nat): nat {
    8 * t.Row(index, pos) + r
  }

  // The byte with that bit is part of the block.
  predicate InsideBlock(t: Table, index: nat, pos: nat, r: nat) {
    t.Row(index, pos) + r / 8 < |t.mem|
  }

  lemma SameBit(t: Table, i: nat, p: nat, r: nat, j: nat, q: nat, s: nat)
    ensures BitAddress(t, i, p, r) == BitAddress(t, j, q, s) <==>
            t.Row(i, p) + r / 8 == t.Row(j, q) + s / 8 && r % 8 == s % 8
  {
  }

  /** BITMATCH_AddRule and BITMATCH_DelRule take rule numbers below max_rule_num. When that is no multiple of 8, the last
      ones have no byte in their row: their bit is the bit of one of the first rules in the next row, which for the last
      row of a segment is the first row of the next segment. */
  lemma TailRuleIsLowRuleOfNextRow(t: Table, tbl: nat, row: nat, id: nat)
    requires t.Valid() && 8 * t.RowBytes() <= id < t.maxRule
    ensures id - 8 * t.RowBytes() < 8
    ensures RuleBit(t, tbl, row, id) <==> RuleBit(t, tbl, row + 1, id - 8 * t.RowBytes())
    ensures BitAddress(t, tbl, row, id) == BitAddress(t, tbl, row + 1, id - 8 * t.RowBytes())
    ensures row + 1 == Pow2(t.segBits) ==>
              BitAddress(t, tbl, row, id) == BitAddress(t, tbl + 1, 0, id - 8 * t.RowBytes())
  {
    var bytes, rows := t.RowBytes(), Pow2(t.segBits);
    assert bytes * (row + 1) == bytes * row + bytes;
    assert bytes * rows * (tbl + 1) == bytes * rows * tbl + bytes * rows;
    SameBit(t, tbl, row, id, tbl, row + 1, id - 8 * bytes);
  }

  // The bits that storing rule id in the rows lo to hi (exclusive) of one table reaches: its own bits in these rows, or,
  // for a rule without a byte of its own, the bits of a low rule one row further on.
  predicate Touched(t: Table, tbl: nat, lo: nat, hi: nat, id: nat, index: nat, pos: nat, r: nat) {
    if id < 8 * t.RowBytes() then index == tbl && lo <= pos < hi && r == id
    else
      && r == id - 8 * t.RowBytes()
      && ((index == tbl && lo < pos <= hi) || (index == tbl + 1 && pos == 0 && lo < hi == Pow2(t.segBits)))
  }

  lemma TouchedOne(t: Table, tbl: nat, row: nat, id: nat, index: nat, pos: nat, r: nat)
    requires t.Valid() && tbl < t.tabNum && row < Pow2(t.segBits) && id < t.maxRule && Place(t, index, pos, r)
    ensures BitAddress(t, tbl, row, id) == BitAddress(t, index, pos, r) <==> Touched(t, tbl, row, row + 1, id, index, pos, r)
  {
    if id < 8 * t.RowBytes() {
      OnePlace(t, tbl, row, id, index, pos, r);
    } else {
      var low := id - 8 * t.RowBytes();
      TailRuleIsLowRuleOfNextRow(t, tbl, row, id);
      if row + 1 < Pow2(t.segBits) {
        OnePlace(t, tbl, row + 1, low, index, pos, r);
      } else if tbl + 1 < t.tabNum {
        OnePlace(t, tbl + 1, 0, low, index, pos, r);
      } else {
        BeforeTheEnd(t, index, pos, r);
      }
    }
  }

  lemma OnePlace(t: Table, i: nat, p: nat, r: nat, j: nat, q: nat, s: nat)
    requires t.Valid() && Place(t, i, p, r) && Place(t, j, q, s)
    ensures BitAddress(t, i, p, r) == BitAddress(t, j, q, s) <==> i == j && p == q && r == s
  {
    SameBit(t, i, p, r, j, q, s);
    if BitAddress(t, i, p, r) == BitAddress(t, j, q, s) {
      PlacesDiffer(t, i, p, r, j, q, s);
    }
  }

  // All rows together.
  function RowsEnd(t: Table): nat {
    t.RowBytes() * Pow2(t.segBits) * t.tabNum
  }

  lemma BeforeTheEnd(t: Table, index: nat, pos: nat, r: nat)
    requires t.Valid() && Place(t, index, pos, r)
    ensures BitAddress(t, index, pos, r) < 8 * t.Row(t.tabNum, 0)
    ensures t.Row(index, pos) + t.RowBytes() <= RowsEnd(t) == t.Row(t.tabNum, 0)
  {
    RowInBounds(t.(mem := t.mem[..RowsEnd(t)]), index, pos);
  }

  // No rule accepts anything.
  ghost predicate NoRules(t: Table) {
    forall index: nat, pos: nat, r: nat :: Place(t, index, pos, r) ==> !RuleBit(t, index, pos, r)
  }

  // t' is t after rule id was stored in the rows lo to hi (exclusive) of one table.
  ghost predicate Stored(t: Table, t': Table, tbl: nat, lo: nat, hi: nat, id: nat) {
    forall index: nat, pos: nat, r: nat :: Place(t, index, pos, r) ==>
      (RuleBit(t', index, pos, r) <==> RuleBit(t, index, pos, r) || Touched(t, tbl, lo, hi, id, index, pos, r))
  }

  // What BITMATCH_AddRule is for: t' is t with rule id added to these rows, and nothing else.
  ghost predicate Added(t: Table, t': Table, tbl: nat, lo: nat, hi: nat, id: nat) {
    forall index: nat, pos: nat, r: nat :: Place(t, index, pos, r) ==>
      (RuleBit(t', index, pos, r) <==> RuleBit(t, index, pos, r) || (index == tbl && lo <= pos < hi && r == id))
  }

  // The bits that clearing rule id reaches in the rows before the given one.
  predicate Wiped(t: Table, tbl: nat, row: nat, id: nat, index: nat, pos: nat, r: nat) {
    if id < 8 * t.RowBytes() then r == id && (index < tbl || (index == tbl && pos < row))
    else
      && r == id - 8 * t.RowBytes() && (index > 0 || pos > 0)
      && (index < tbl || (index == tbl && pos <= row) || (index == tbl + 1 && pos == 0 && row == Pow2(t.segBits)))
  }

  // t' is t after rule id was cleared in the rows before the given one.
  ghost predicate Cleared(t: Table, t': Table, tbl: nat, row: nat, id: nat) {
    forall index: nat, pos: nat, r: nat :: Place(t, index, pos, r) ==>
      (RuleBit(t', index, pos, r) <==> RuleBit(t, index, pos, r) && !Wiped(t, tbl, row, id, index, pos, r))
  }

  // What BITMATCH_DelRule is for: t' is t without rule id in these rows, and nothing else.
  ghost predicate Removed(t: Table, t': Table, tbl: nat, row: nat, id: nat) {
    forall index: nat, pos: nat, r: nat :: Place(t, index, pos, r) ==>
      (RuleBit(t', index, pos, r) <==>
         RuleBit(t, index, pos, r) && !(r == id && (index < tbl || (index == tbl && pos < row))))
  }

  /** BITMATCH_AddRule does what it is for if and only if the rule has a byte of its own, or every bit it reaches instead was
      set before. */
  lemma AddedIff(t: Table, t': Table, tbl: nat, lo: nat, hi: nat, id: nat)
    requires Stored(t, t', tbl, lo, hi, id)
    ensures Added(t, t', tbl, lo, hi, id) <==>
            || id < 8 * t.RowBytes()
            || forall index: nat, pos: nat, r: nat :: Place(t, index, pos, r) && Touched(t, tbl, lo, hi, id, index, pos, r) ==>
                 RuleBit(t, index, pos, r)
  {
    if id >= 8 * t.RowBytes() && Added(t, t', tbl, lo, hi, id) {
      forall index: nat, pos: nat, r: nat | Place(t, index, pos, r) && Touched(t, tbl, lo, hi, id, index, pos, r)
        ensures RuleBit(t, index, pos, r)
      {
        assert RuleBit(t', index, pos, r);
      }
    }
  }

  /** On tables without any rule that is: if and only if the rule has a byte of its own, or the only row is the last one of
      the last segment (or the rows have no byte at all). */
  lemma AddedToEmptyIff(t: Table, t': Table, tbl: nat, lo: nat, hi: nat, id: nat)
    requires t.Valid() && tbl < t.tabNum && lo < hi <= Pow2(t.segBits) && id < t.maxRule && Stored(t, t', tbl, lo, hi, id)
    requires NoRules(t)
    ensures Added(t, t', tbl, lo, hi, id) <==>
            id < 8 * t.RowBytes() || t.RowBytes() == 0 || (tbl + 1 == t.tabNum && lo + 1 == Pow2(t.segBits))
  {
    AddedIff(t, t', tbl, lo, hi, id);
    if id >= 8 * t.RowBytes() > 0 {
      var low := id - 8 * t.RowBytes();
      TailRuleIsLowRuleOfNextRow(t, tbl, lo, id);
      if lo + 1 < Pow2(t.segBits) {
        assert Place(t, tbl, lo + 1, low) && Touched(t, tbl, lo, hi, id, tbl, lo + 1, low);
      } else if tbl + 1 < t.tabNum {
        assert Place(t, tbl + 1, 0, low) && Touched(t, tbl, lo, hi, id, tbl + 1, 0, low);
      }
    }
  }

  /** BITMATCH_DelRule does what it is for if and only if the rule has a byte of its own, or every bit it reaches instead was
      clear before. */
  lemma RemovedIff(t: Table, t': Table, tbl: nat, row: nat, id: nat)
    requires Cleared(t, t', tbl, row, id)
    ensures Removed(t, t', tbl, row, id) <==>
            || id < 8 * t.RowBytes()
            || forall index: nat, pos: nat, r: nat :: Place(t, index, pos, r) && Wiped(t, tbl, row, id, index, pos, r) ==>
                 !RuleBit(t, index, pos, r)
  {
    if id >= 8 * t.RowBytes() && Removed(t, t', tbl, row, id) {
      forall index: nat, pos: nat, r: nat | Place(t, index, pos, r) && Wiped(t, tbl, row, id, index, pos, r)
        ensures !RuleBit(t, index, pos, r)
      {
        assert !RuleBit(t', index, pos, r);
      }
    }
  }

  /** The byte that is loaded and stored is part of the block if and only if the rule has a byte of its own, or another row
      follows, or the block is longer than its rows. */
  lemma InsideBlockIff(t: Table, tbl: nat, row: nat, id: nat)
    requires t.Valid() && tbl < t.tabNum && row < Pow2(t.segBits) && id < t.maxRule
    ensures InsideBlock(t, tbl, row, id) <==>
            || id < 8 * t.RowBytes()
            || (t.RowBytes() > 0 && (row + 1 < Pow2(t.segBits) || tbl + 1 < t.tabNum))
            || |t.mem| > RowsEnd(t)
  {
    var bytes, rows := t.RowBytes(), Pow2(t.segBits);
    if id < 8 * bytes {
      PlaceInBounds(t, tbl, row, id);
    } else {
      var low := id - 8 * bytes;
      TailRuleIsLowRuleOfNextRow(t, tbl, row, id);
      SameBit(t, tbl, row, id, tbl, row + 1, low);
      if row + 1 == rows {
        SameBit(t, tbl, row, id, tbl + 1, 0, low);
      }
      if bytes > 0 && row + 1 < rows {
        PlaceInBounds(t, tbl, row + 1, low);
      } else if bytes > 0 && tbl + 1 < t.tabNum {
        PlaceInBounds(t, tbl + 1, 0, low);
      }
    }
  }

  // The byte of the rule is replaced, if it is part of the block.
  function WithByte(t: Table, tbl: nat, row: nat, id: nat, byte: Byte): Table {
    if InsideBlock(t, tbl, row, id) then t.(mem := t.mem[t.Row(tbl, row) + id / 8 := byte]) else t
  }

  lemma ByteSet(t: Table, tbl: nat, row: nat, id: nat, byte: Byte, index: nat, pos: nat, r: nat)
    requires InsideBlock(t, tbl, row, id)
    ensures RuleBit(WithByte(t, tbl, row, id, byte), index, pos, r) <==>
            if t.Row(index, pos) + r / 8 == t.Row(tbl, row) + id / 8 then Bit(byte, r % 8) else RuleBit(t, index, pos, r)
  {
  }

  // All bits after one store: exactly the bits with that address are set, whatever rule and row they are read for.
  ghost predicate BitRaised(t: Table, t': Table, tbl: nat, row: nat, id: nat) {
    forall index: nat, pos: nat, r: nat ::
      RuleBit(t', index, pos, r) <==>
      || RuleBit(t, index, pos, r)
      || (InsideBlock(t, tbl, row, id) && BitAddress(t, index, pos, r) == BitAddress(t, tbl, row, id))
  }

  ghost predicate BitLowered(t: Table, t': Table, tbl: nat, row: nat, id: nat) {
    forall index: nat, pos: nat, r: nat ::
      RuleBit(t', index, pos, r) <==>
      && RuleBit(t, index, pos, r)
      && !(InsideBlock(t, tbl, row, id) && BitAddress(t, index, pos, r) == BitAddress(t, tbl, row, id))
  }

  lemma Raised(t: Table, tbl: nat, row: nat, id: nat)
    requires InsideBlock(t, tbl, row, id)
    ensures BitRaised(t, WithByte(t, tbl, row, id, Raise(t.mem[t.Row(tbl, row) + id / 8], id % 8)), tbl, row, id)
  {
    var byte := Raise(t.mem[t.Row(tbl, row) + id / 8], id % 8);
    forall index: nat, pos: nat, r: nat
      ensures RuleBit(WithByte(t, tbl, row, id, byte), index, pos, r) <==>
              RuleBit(t, index, pos, r) || BitAddress(t, index, pos, r) == BitAddress(t, tbl, row, id)
    {
      ByteSet(t, tbl, row, id, byte, index, pos, r);
      SameBit(t, index, pos, r, tbl, row, id);
    }
  }

  lemma Lowered(t: Table, tbl: nat, row: nat, id: nat)
    requires InsideBlock(t, tbl, row, id)
    ensures BitLowered(t, WithByte(t, tbl, row, id, Lower(t.mem[t.Row(tbl, row) + id / 8], id % 8)), tbl, row, id)
  {
    var byte := Lower(t.mem[t.Row(tbl, row) + id / 8], id % 8);
    forall index: nat, pos: nat, r: nat
      ensures RuleBit(WithByte(t, tbl, row, id, byte), index, pos, r) <==>
              RuleBit(t, index, pos, r) && BitAddress(t, index, pos, r) != BitAddress(t, tbl, row, id)
    {
      ByteSet(t, tbl, row, id, byte, index, pos, r);
      SameBit(t, index, pos, r, tbl, row, id);
    }
  }

  // A store whose bit has a place is made inside the block.
  lemma TouchedPlace(t: Table, tbl: nat, row: nat, id: nat, index: nat, pos: nat, r: nat)
    requires t.Valid() && tbl < t.tabNum && row < Pow2(t.segBits) && id < t.maxRule && Place(t, index, pos, r)
    ensures InsideBlock(t, tbl, row, id) && BitAddress(t, index, pos, r) == BitAddress(t, tbl, row, id) <==>
            Touched(t, tbl, row, row + 1, id, index, pos, r)
  {
    TouchedOne(t, tbl, row, id, index, pos, r);
    PlaceInBounds(t, index, pos, r);
    SameBit(t, tbl, row, id, index, pos, r);
  }

  lemma RaisedIsStored(t: Table, t': Table, tbl: nat, row: nat, id: nat)
    requires t.Valid() && tbl < t.tabNum && row < Pow2(t.segBits) && id < t.maxRule && BitRaised(t, t', tbl, row, id)
    ensures Stored(t, t', tbl, row, row + 1, id)
  {
    forall index: nat, pos: nat, r: nat | Place(t, index, pos, r)
      ensures RuleBit(t', index, pos, r) <==> RuleBit(t, index, pos, r) || Touched(t, tbl, row, row + 1, id, index, pos, r)
    {
      TouchedPlace(t, tbl, row, id, index, pos, r);
    }
  }

  // The same for a bit that is cleared.
  ghost predicate Unstored(t: Table, t': Table, tbl: nat, row: nat, id: nat) {
    forall index: nat, pos: nat, r: nat :: Place(t, index, pos, r) ==>
      (RuleBit(t', index, pos, r) <==> RuleBit(t, index, pos, r) && !Touched(t, tbl, row, row + 1, id, index, pos, r))
  }

  lemma LoweredIsUnstored(t: Table, t': Table, tbl: nat, row: nat, id: nat)
    requires t.Valid() && tbl < t.tabNum && row < Pow2(t.segBits) && id < t.maxRule && BitLowered(t, t', tbl, row, id)
    ensures Unstored(t, t', tbl, row, id)
  {
    forall index: nat, pos: nat, r: nat | Place(t, index, pos, r)
      ensures RuleBit(t', index, pos, r) <==> RuleBit(t, index, pos, r) && !Touched(t, tbl, row, row + 1, id, index, pos, r)
    {
      TouchedPlace(t, tbl, row, id, index, pos, r);
    }
  }

  // The block BITMATCH_Create asks for has room for all rows.
  lemma RoomForRows(tabNum: nat, maxRule: nat, rows: nat)
    ensures (tabNum * maxRule / 8) * rows >= (maxRule / 8) * rows * tabNum
  {
    var q, size := maxRule / 8, tabNum * maxRule;
    assert size / 8 >= tabNum * q by {
      assert size == tabNum * (8 * q) + tabNum * (maxRule % 8);
      assert tabNum * (8 * q) == 8 * (tabNum * q);
    }
    AtLeast(size / 8, tabNum * q, rows);
    assert (tabNum * q) * rows == q * rows * tabNum;
  }

  /** That block ends with its last row if and only if the bits the rows drop do not add up to a byte. */
  lemma BlockEndsWithRowsIff(tabNum: nat, maxRule: nat, rows: nat)
    requires rows > 0
    ensures (tabNum * maxRule / 8) * rows == (maxRule / 8) * rows * tabNum <==> tabNum * (maxRule % 8) < 8
  {
    var q, d := maxRule / 8, tabNum * (maxRule % 8);
    assert tabNum * maxRule == 8 * (tabNum * q) + d by {
      assert tabNum * maxRule == tabNum * (8 * q + maxRule % 8);
      assert tabNum * (8 * q) == 8 * (tabNum * q);
    }
    assert tabNum * maxRule / 8 == tabNum * q + d / 8;
    assert (tabNum * q + d / 8) * rows == (tabNum * q) * rows + (d / 8) * rows;
    assert (tabNum * q) * rows == q * rows * tabNum;
    MultipleBound(d / 8, rows);
  }

  lemma AtLeast(x: nat, y: nat, k: nat)
    requires x >= y
    ensures x * k >= y * k
  {
  }

  // BITMATCH_S
  class Matcher {
    const segBits: nat
    const tabNum: nat
    const maxRule: nat
    const bits: array<Byte>

    // The tables as they are now.
    function Tables(): Table
      reads bits
    {
      Table(segBits, tabNum, maxRule, bits[..])
    }

    constructor (segBits: nat, tabNum: nat, maxRule: nat, bits: array<Byte>)
      ensures this.segBits == segBits && this.tabNum == tabNum && this.maxRule == maxRule && this.bits == bits
    {
      this.segBits, this.tabNum, this.maxRule, this.bits := segBits, tabNum, maxRule, bits;
    }

    /** BITMATCH_Create: it refuses the multiples of 64, and otherwise, if there is memory for both its blocks, gives tables in
        which no rule accepts anything. */
    static method Create(tabNum: nat, segBits: nat, maxRule: nat, ctrlMemory: bool, bitsMemory: bool) returns (m: Matcher?)
      ensures m != null <==> maxRule % 64 != 0 && segBits in {2, 4, 8} && ctrlMemory && bitsMemory
      ensures m != null ==> fresh(m.bits) && m.segBits == segBits && m.tabNum == tabNum && m.maxRule == maxRule
      ensures m != null && tabNum > 0 && tabNum % (8 / segBits) == 0 ==> m.Tables().Valid()
      ensures m != null ==> m.bits.Length == (tabNum * maxRule / 8) * Pow2(segBits)
      ensures m != null ==> forall index: nat, pos: nat, r: nat :: !RuleBit(m.Tables(), index, pos, r)
    {
      if maxRule % 64 == 0 || (segBits != 2 && segBits != 4 && segBits != 8) {
        return null;
      }
      if !ctrlMemory || !bitsMemory {
        return null;
      }
      var size := (tabNum * maxRule / 8) * Pow2(segBits);
      var bits := new Byte[size](_ => 0);
      m := new Matcher(segBits, tabNum, maxRule, bits);
      RoomForRows(tabNum, maxRule, Pow2(segBits));
      forall index: nat, pos: nat, r: nat
        ensures !RuleBit(m.Tables(), index, pos, r)
      {
        ZeroBit(r % 8);
      }
    }

    // ArrayBit_Set on one row. What a store beyond the block changes is not part of the tables.
    method SetBit(tbl: nat, row: nat, id: nat)
      requires Tables().Valid() && tbl < tabNum && row < Pow2(segBits) && id < maxRule
      modifies bits
      ensures Tables().Valid() && BitRaised(old(Tables()), Tables(), tbl, row, id)
      ensures Stored(old(Tables()), Tables(), tbl, row, row + 1, id)
    {
      ghost var t := Tables();
      var at := Tables().Row(tbl, row) + id / 8;
      if at < bits.Length {
        Raised(t, tbl, row, id);
        bits[at] := Raise(bits[at], id % 8);
        assert Tables() == WithByte(t, tbl, row, id, bits[at]);
      }
      RaisedIsStored(t, Tables(), tbl, row, id);
    }

    // ArrayBit_Clr on one row
    method ClearBit(tbl: nat, row: nat, id: nat)
      requires Tables().Valid() && tbl < tabNum && row < Pow2(segBits) && id < maxRule
      modifies bits
      ensures Tables().Valid() && BitLowered(old(Tables()), Tables(), tbl, row, id)
      ensures Unstored(old(Tables()), Tables(), tbl, row, id)
    {
      ghost var t := Tables();
      var at := Tables().Row(tbl, row) + id / 8;
      if at < bits.Length {
        Lowered(t, tbl, row, id);
        bits[at] := Lower(bits[at], id % 8);
        assert Tables() == WithByte(t, tbl, row, id, bits[at]);
      }
      LoweredIsUnstored(t, Tables(), tbl, row, id);
    }

    /** BITMATCH_AddRule, for every rule number below max_rule_num: exactly the bits of Touched are set. For a rule with a
        byte of its own, the rule accepts the values of the range in this segment, and no other bit changes. */
    method AddRule(tbl: nat, rangeMin: nat, rangeMax: nat, id: nat)
      requires Tables().Valid() && tbl < tabNum && rangeMin <= rangeMax < Pow2(segBits) && id < maxRule
      modifies bits
      ensures Tables().Valid() && Stored(old(Tables()), Tables(), tbl, rangeMin, rangeMax + 1, id)
      ensures id < 8 * Tables().RowBytes() ==> Added(old(Tables()), Tables(), tbl, rangeMin, rangeMax + 1, id)
    {
      ghost var t := Tables();
      var i := rangeMin;
      while i <= rangeMax
        invariant rangeMin <= i <= rangeMax + 1 && Tables().Valid() && Stored(t, Tables(), tbl, rangeMin, i, id)
      {
        ghost var t1 := Tables();
        SetBit(tbl, i, id);
        StoredNext(t, t1, Tables(), tbl, rangeMin, i, id);
        i := i + 1;
      }
      AddedIff(t, Tables(), tbl, rangeMin, rangeMax + 1, id);
    }

    /** BITMATCH_DelRule, for every rule number below max_rule_num: exactly the bits of Wiped are cleared. For a rule with a
        byte of its own, the rule accepts nothing any more, and no bit of another rule changes. */
    method DelRule(id: nat)
      requires Tables().Valid() && id < maxRule
      modifies bits
      ensures Tables().Valid() && Cleared(old(Tables()), Tables(), tabNum, 0, id)
      ensures id < 8 * Tables().RowBytes() ==> Removed(old(Tables()), Tables(), tabNum, 0, id)
    {
      ghost var t := Tables();
      var i := 0;
      while i < tabNum
        invariant i <= tabNum && Tables().Valid() && Cleared(t, Tables(), i, 0, id)
      {
        var j := 0;
        while j < Pow2(segBits)
          invariant j <= Pow2(segBits) && Tables().Valid() && Cleared(t, Tables(), i, j, id)
        {
          ghost var t1 := Tables();
          ClearBit(i, j, id);
          ClearedNext(t, t1, Tables(), i, j, id);
          j := j + 1;
        }
        ClearedTable(t, Tables(), i, id);
        i := i + 1;
      }
      RemovedIff(t, Tables(), tabNum, 0, id);
    }
  }

  lemma StoredNext(t: Table, t1: Table, t2: Table, tbl: nat, lo: nat, i: nat, id: nat)
    requires SameShape(t, t1) && lo <= i < Pow2(t.segBits) && Stored(t, t1, tbl, lo, i, id) && Stored(t1, t2, tbl, i, i + 1, id)
    ensures Stored(t, t2, tbl, lo, i + 1, id)
  {
    forall index: nat, pos: nat, r: nat | Place(t, index, pos, r)
      ensures RuleBit(t2, index, pos, r) <==> RuleBit(t, index, pos, r) || Touched(t, tbl, lo, i + 1, id, index, pos, r)
    {
      assert Place(t1, index, pos, r);
    }
  }

  lemma ClearedNext(t: Table, t1: Table, t2: Table, i: nat, j: nat, id: nat)
    requires SameShape(t, t1) && j < Pow2(t.segBits) && Cleared(t, t1, i, j, id)
    requires Unstored(t1, t2, i, j, id)
    ensures Cleared(t, t2, i, j + 1, id)
  {
    forall index: nat, pos: nat, r: nat | Place(t, index, pos, r)
      ensures RuleBit(t2, index, pos, r) <==> RuleBit(t, index, pos, r) && !Wiped(t, i, j + 1, id, index, pos, r)
    {
      assert Place(t1, index, pos, r);
    }
  }

  lemma ClearedTable(t: Table, t': Table, i: nat, id: nat)
    requires Cleared(t, t', i, Pow2(t.segBits), id)
    ensures Cleared(t, t', i + 1, 0, id)
  {
  }

  // ----- Where rules without a byte of their own go wrong.

  /** One segment of eight bits and 65 rules: adding rule 64 for the value 5 to tables without rules makes rule 0 accept the
      value 6, and the matcher answers 0 for data that no rule was added for. */
  lemma TailRuleFalseMatch(t: Table, t': Table)
    requires t.Valid() && t.segBits == 8 && t.tabNum == 1 && t.maxRule == 65 && SameShape(t, t')
    requires NoRules(t)
    requires Stored(t, t', 0, 5, 6, 64)
    ensures !Accepts(t, [6], 0) && Accepts(t', [6], 0)
    ensures Reported(LinearScan(t', [6], 0, t'.Rules())) == 0 && Reported(LinearScan(t, [6], 0, t.Rules())) == -1
    ensures !Added(t, t', 0, 5, 6, 64)
  {
    Pow2_8();
    Values8(t, [6], 0);
    Values8(t', [6], 0);
    assert Place(t, 0, 6, 0) && Touched(t, 0, 5, 6, 64, 0, 6, 0);
    assert RuleBit(t', 0, 6, 0);
    forall r: nat | r < t.Rules()
      ensures !Accepts(t, [6], r)
    {
      assert Place(t, 0, 6, r) && !RuleBit(t, 0, Value(t, [6], 0), r);
    }
  }

  // What BITMATCH_Create gives for segments of eight bits.
  function Blank(tabNum: nat, maxRule: nat): Table {
    Table(8, tabNum, maxRule, seq((tabNum * maxRule / 8) * Pow2(8), i => 0))
  }

  lemma BlankAcceptsNothing(tabNum: nat, maxRule: nat, index: nat, pos: nat, r: nat)
    ensures tabNum > 0 ==> Blank(tabNum, maxRule).Valid()
    ensures !RuleBit(Blank(tabNum, maxRule), index, pos, r)
  {
    RoomForRows(tabNum, maxRule, Pow2(8));
    ZeroBit(r % 8);
  }

  // The tables after one store.
  lemma OneStore(t: Table, tbl: nat, row: nat, id: nat) returns (t': Table)
    requires t.Valid() && tbl < t.tabNum && row < Pow2(t.segBits) && id < t.maxRule
    ensures SameShape(t, t') && Stored(t, t', tbl, row, row + 1, id)
  {
    t' := t;
    if InsideBlock(t, tbl, row, id) {
      Raised(t, tbl, row, id);
      t' := WithByte(t, tbl, row, id, Raise(t.mem[t.Row(tbl, row) + id / 8], id % 8));
    }
    RaisedIsStored(t, t', tbl, row, id);
  }

  /** Such tables exist: one store on what BITMATCH_Create gives. */
  lemma TailRuleFalseMatchFromBlank() returns (t': Table)
    ensures SameShape(Blank(1, 65), t') && Stored(Blank(1, 65), t', 0, 5, 6, 64)
    ensures Reported(LinearScan(t', [6], 0, t'.Rules())) == 0 && !Added(Blank(1, 65), t', 0, 5, 6, 64)
  {
    BlankAcceptsNothing(1, 65, 0, 0, 0);
    BlankHasNoRules(1, 65);
    t' := StoreTailRule(Blank(1, 65));
  }

  lemma BlankHasNoRules(tabNum: nat, maxRule: nat)
    ensures NoRules(Blank(tabNum, maxRule))
  {
    forall index: nat, pos: nat, r: nat
      ensures !RuleBit(Blank(tabNum, maxRule), index, pos, r)
    {
      BlankAcceptsNothing(tabNum, maxRule, index, pos, r);
    }
  }

  lemma StoreTailRule(t: Table) returns (t': Table)
    requires t.Valid() && t.segBits == 8 && t.tabNum == 1 && t.maxRule == 65 && NoRules(t)
    ensures SameShape(t, t') && Stored(t, t', 0, 5, 6, 64)
    ensures Reported(LinearScan(t', [6], 0, t'.Rules())) == 0 && !Added(t, t', 0, 5, 6, 64)
  {
    assert 5 < Pow2(t.segBits) by { Pow2_8(); }
    t' := OneStore(t, 0, 5, 64);
    TailRuleFalseMatch(t, t');
  }

  /** And deleting rule 64 takes the value 6 from rule 0. */
  lemma TailRuleFalseDelete(t: Table, t': Table)
    requires t.Valid() && t.segBits == 8 && t.tabNum == 1 && t.maxRule == 65 && SameShape(t, t')
    requires RuleBit(t, 0, 6, 0) && Cleared(t, t', 1, 0, 64)
    ensures Accepts(t, [6], 0) && !Accepts(t', [6], 0) && !Removed(t, t', 1, 0, 64)
  {
    Pow2_8();
    Values8(t, [6], 0);
    Values8(t', [6], 0);
    assert Place(t, 0, 6, 0) && Wiped(t, 1, 0, 64, 0, 6, 0);
    assert !RuleBit(t', 0, Value(t', [6], 0), 0);
  }

  /** With one segment and 65 rules the block ends with its last row, and there the byte of rule 64 is not part of it. */
  lemma TailRuleOutsideBlock(t: Table)
    requires t.Valid() && t.tabNum == 1 && t.maxRule == 65
    requires |t.mem| == (t.tabNum * t.maxRule / 8) * Pow2(t.segBits)
    ensures !InsideBlock(t, 0, Pow2(t.segBits) - 1, 64)
  {
    BlockEndsWithRowsIff(t.tabNum, t.maxRule, Pow2(t.segBits));
    InsideBlockIff(t, 0, Pow2(t.segBits) - 1, 64);
  }

  /** One segment of eight bits and 65 rules, the only one of them rule 32: the linear scan finds it, and the matcher, by way
      of BIT_GetLowIndex64, answers 31. */
  lemma UpperHalfRuleMisreported(t: Table, t': Table)
    requires t.Valid() && t.segBits == 8 && t.tabNum == 1 && t.maxRule == 65 && SameShape(t, t')
    requires NoRules(t)
    requires Added(t, t', 0, 5, 6, 32)
    ensures LinearScan(t', [5], 0, 8 * t'.RowBytes()) == 32
    ensures Reported(LinearScan(t', [5], 0, t'.Rules())) == 31
  {
    Pow2_8();
    Values8(t', [5], 0);
    forall r: nat | r < 64
      ensures Accepts(t', [5], r) <==> r == 32
    {
      assert Place(t, 0, 5, r);
      assert RuleBit(t', 0, Value(t', [5], 0), r) <==> r == 32;
    }
    FirstRule(t', [5], 32, 8 * t'.RowBytes());
    FirstRule(t', [5], 32, t'.Rules());
    ReportedInWord(0, 32);
  }

  lemma FirstRule(t: Table, data: seq<Byte>, r: nat, end: nat)
    requires t.Valid() && r < end && Accepts(t, data, r) && forall k :: 0 <= k < r ==> !Accepts(t, data, k)
    ensures LinearScan(t, data, 0, end) == r
  {
    ScanSkips(t, data, 0, r, end);
  }

  // ----- What a rule accepts.

  ghost predicate SameShape(t: Table, t': Table) {
    t'.segBits == t.segBits && t'.tabNum == t.tabNum && t'.maxRule == t.maxRule && t.Valid() && t'.Valid()
  }

  // t' is t with rule id added to the first n tables, each with its own range.
  ghost predicate AddedToAll(t: Table, t': Table, n: nat, mins: seq<nat>, maxs: seq<nat>, id: nat) {
    && n <= |mins| && n <= |maxs|
    && forall index: nat, pos: nat, r: nat :: Place(t, index, pos, r) ==>
         (RuleBit(t', index, pos, r) <==>
            RuleBit(t, index, pos, r) || (index < n && mins[index] <= pos <= maxs[index] && r == id))
  }

  // One BITMATCH_AddRule for each segment builds up the whole rule.
  lemma AddNextTable(t: Table, t1: Table, t2: Table, n: nat, mins: seq<nat>, maxs: seq<nat>, id: nat)
    requires SameShape(t, t1) && AddedToAll(t, t1, n, mins, maxs, id) && n < |mins| && n < |maxs|
    requires Added(t1, t2, n, mins[n], maxs[n] + 1, id)
    ensures AddedToAll(t, t2, n + 1, mins, maxs, id)
  {
    forall index: nat, pos: nat, r: nat | Place(t, index, pos, r)
      ensures RuleBit(t2, index, pos, r) <==>
              RuleBit(t, index, pos, r) || (index < n + 1 && mins[index] <= pos <= maxs[index] && r == id)
    {
      assert Place(t1, index, pos, r);
    }
  }

  /** A rule that was added to every segment accepts exactly the data whose segments all lie in its ranges, and no other
      rule accepts more or less than before. */
  lemma RuleAcceptsItsRanges(t: Table, t': Table, mins: seq<nat>, maxs: seq<nat>, id: nat, data: seq<Byte>, r: nat)
    requires SameShape(t, t') && AddedToAll(t, t', t.tabNum, mins, maxs, id)
    requires id < 8 * t.RowBytes() && r < 8 * t.RowBytes()
    requires forall index: nat, pos: nat :: Place(t, index, pos, id) ==> !RuleBit(t, index, pos, id)
    ensures Accepts(t', data, id) <==> forall k :: 0 <= k < t.tabNum ==> mins[k] <= Value(t, data, k) <= maxs[k]
    ensures r != id ==> (Accepts(t', data, r) <==> Accepts(t, data, r))
  {
    forall k: nat | k < t.tabNum
      ensures RuleBit(t', k, Value(t', data, k), id) <==> mins[k] <= Value(t, data, k) <= maxs[k]
      ensures r != id ==> (RuleBit(t', k, Value(t', data, k), r) <==> RuleBit(t, k, Value(t, data, k), r))
    {
      assert Value(t', data, k) == Value(t, data, k);
      assert Place(t, k, Value(t, data, k), id) && Place(t, k, Value(t, data, k), r);
    }
  }

  /** A deleted rule accepts nothing, and no other rule accepts more or less than before. */
  lemma DeletedRuleAcceptsNothing(t: Table, t': Table, id: nat, data: seq<Byte>, r: nat)
    requires SameShape(t, t') && Removed(t, t', t.tabNum, 0, id)
    requires id < 8 * t.RowBytes() && r < 8 * t.RowBytes()
    ensures !Accepts(t', data, id)
    ensures r != id ==> (Accepts(t', data, r) <==> Accepts(t, data, r))
  {
    forall k: nat | k < t.tabNum
      ensures !RuleBit(t', k, Value(t', data, k), id)
      ensures r != id ==> (RuleBit(t', k, Value(t', data, k), r) <==> RuleBit(t, k, Value(t, data, k), r))
    {
      assert Value(t', data, k) == Value(t, data, k);
      assert Place(t, k, Value(t, data, k), id) && Place(t, k, Value(t, data, k), r);
    }
    assert !RuleBit(t', 0, Value(t', data, 0), id);
  }

  // ----- All rules.

  // Bit r of the result stands for rule r and the first n segments.
  ghost predicate Listed(t: Table, data: seq<Byte>, n: nat, matched: seq<Byte>)
    requires t.Valid()
  {
    && |matched| == t.RowBytes()
    && forall r :: 0 <= r < t.Rules() ==>
         (r / 8 < |matched| && Bit(matched[r / 8], r % 8) <==> AcceptsFirst(t, data, n, r))
  }

  // A rule behind the last whole word is listed as the first segment alone decides.
  ghost predicate TailListed(t: Table, data: seq<Byte>, matched: seq<Byte>)
    requires t.Valid()
  {
    && |matched| == t.RowBytes()
    && forall r :: t.Rules() <= r < 8 * t.RowBytes() ==>
         (r / 8 < |matched| && Bit(matched[r / 8], r % 8) <==> AcceptsFirst(t, data, 1, r))
  }

  // ArrayBit_And64 of the result with one row: whole 64-bit words, so the bytes behind the last one stay.
  method AndRow(t: Table, at: nat, matched: array<Byte>)
    requires matched.Length == t.RowBytes() && at + t.RowBytes() <= |t.mem|
    modifies matched
    ensures forall k :: 0 <= k < matched.Length ==>
              matched[k] == if k < 8 * (t.maxRule / 64) then AndByte(old(matched[k]), t.mem[at + k]) else old(matched[k])
  {
    var i := 0;
    while i < t.maxRule / 64
      invariant i <= t.maxRule / 64
      invariant forall k :: 0 <= k < matched.Length ==>
                  matched[k] == if k < 8 * i then AndByte(old(matched[k]), t.mem[at + k]) else old(matched[k])
    {
      forall k | 8 * i <= k < 8 * i + 8 {
        matched[k] := AndByte(matched[k], t.mem[at + k]);
      }
      i := i + 1;
    }
  }

  // The first row, with nothing looked at beyond it.
  lemma FirstRowListed(t: Table, data: seq<Byte>, matched: seq<Byte>)
    requires t.Valid() && |matched| == t.RowBytes()
    requires t.Row(0, Value(t, data, 0)) + |matched| <= |t.mem|
    requires forall k :: 0 <= k < |matched| ==> matched[k] == t.mem[t.Row(0, Value(t, data, 0)) + k]
    ensures Listed(t, data, 1, matched) && TailListed(t, data, matched)
  {
    RulesFit(t);
    forall r | 0 <= r < 8 * t.RowBytes()
      ensures Bit(matched[r / 8], r % 8) <==> AcceptsFirst(t, data, 1, r)
    {
      assert matched[r / 8] == t.mem[t.Row(0, Value(t, data, 0)) + r / 8];
    }
  }

  lemma TailStays(t: Table, data: seq<Byte>, before: seq<Byte>, after: seq<Byte>)
    requires t.Valid() && TailListed(t, data, before) && |after| == |before|
    requires forall k :: 8 * (t.maxRule / 64) <= k < |before| ==> after[k] == before[k]
    ensures TailListed(t, data, after)
  {
    forall r | t.Rules() <= r < 8 * t.RowBytes()
      ensures Bit(after[r / 8], r % 8) <==> AcceptsFirst(t, data, 1, r)
    {
      assert after[r / 8] == before[r / 8];
    }
  }

  // One more row: segment i, which may be one that was counted before.
  lemma RowListed(t: Table, data: seq<Byte>, n: nat, i: nat, before: seq<Byte>, after: seq<Byte>)
    requires t.Valid() && i < t.tabNum && i <= n && Listed(t, data, n, before) && |after| == |before|
    requires t.Row(i, Value(t, data, i)) + t.RowBytes() <= |t.mem|
    requires forall k :: 0 <= k < 8 * (t.maxRule / 64) ==>
               k < |before| && after[k] == AndByte(before[k], t.mem[t.Row(i, Value(t, data, i)) + k])
    ensures Listed(t, data, if i == n then n + 1 else n, after)
  {
    RulesFit(t);
    var m := if i == n then n + 1 else n;
    forall r | 0 <= r < t.Rules()
      ensures Bit(after[r / 8], r % 8) <==> AcceptsFirst(t, data, m, r)
    {
      var byte := t.mem[t.Row(i, Value(t, data, i)) + r / 8];
      AndBit(before[r / 8], byte, r % 8);
      assert Bit(byte, r % 8) <==> RuleBit(t, i, Value(t, data, i), r);
      assert AcceptsFirst(t, data, m, r) <==> AcceptsFirst(t, data, n, r) && RuleBit(t, i, Value(t, data, i), r);
    }
  }

  /** _bitmatch_match8 combines whole 64-bit words only: of the rules in these it lists exactly those that accept every
      segment, and of the rules behind them those that the first segment accepts. */
  method Match8(t: Table, data: seq<Byte>, matched: array<Byte>)
    requires t.Valid() && t.segBits == 8 && DataFits(t, data) && matched.Length == t.RowBytes()
    modifies matched
    ensures Listed(t, data, t.tabNum, matched[..]) && TailListed(t, data, matched[..])
  {
    Values8(t, data, 0);
    RowInBounds(t, 0, data[0]);
    var first := t.Row(0, data[0]);
    forall k | 0 <= k < matched.Length {
      matched[k] := t.mem[first + k];
    }
    FirstRowListed(t, data, matched[..]);
    var i := 0;
    while i < t.tabNum
      invariant i <= t.tabNum && Listed(t, data, if i == 0 then 1 else i, matched[..]) && TailListed(t, data, matched[..])
    {
      Values8(t, data, i);
      RowInBounds(t, i, data[i]);
      ghost var before := matched[..];
      AndRow(t, t.Row(i, data[i]), matched);
      RowListed(t, data, if i == 0 then 1 else i, i, before, matched[..]);
      TailStays(t, data, before, matched[..]);
      i := i + 1;
    }
  }

  // What _bitmatch_match8 leaves behind.
  ghost predicate MatchList(t: Table, data: seq<Byte>, matched: seq<Byte>)
    requires t.Valid()
  {
    Listed(t, data, t.tabNum, matched) && TailListed(t, data, matched)
  }

  // Rule r is in the list.
  predicate InList(matched: seq<Byte>, r: nat) {
    r / 8 < |matched| && Bit(matched[r / 8], r % 8)
  }

  // The first segment accepts rule r.
  predicate OnFirstSegment(t: Table, data: seq<Byte>, r: nat)
    requires t.Valid()
  {
    RuleBit(t, 0, Value(t, data, 0), r)
  }

  lemma InListIff(t: Table, data: seq<Byte>, matched: seq<Byte>, r: nat)
    requires t.Valid() && MatchList(t, data, matched) && r < 8 * t.RowBytes()
    ensures InList(matched, r) <==> if r < t.Rules() then Accepts(t, data, r) else OnFirstSegment(t, data, r)
  {
    if r >= t.Rules() {
      assert AcceptsFirst(t, data, 1, r) <==> OnFirstSegment(t, data, r);
    }
  }

  /** Over all the rules of a row, the list is exact if and only if every rule behind the last whole word that the first
      segment accepts is accepted by all segments. */
  lemma ListExactIff(t: Table, data: seq<Byte>, matched: seq<Byte>)
    requires t.Valid() && MatchList(t, data, matched)
    ensures (forall r: nat :: r < 8 * t.RowBytes() ==> (InList(matched, r) <==> Accepts(t, data, r))) <==>
            (forall r: nat :: t.Rules() <= r < 8 * t.RowBytes() && OnFirstSegment(t, data, r) ==> Accepts(t, data, r))
  {
    forall r: nat | r < 8 * t.RowBytes()
      ensures InList(matched, r) <==> if r < t.Rules() then Accepts(t, data, r) else OnFirstSegment(t, data, r)
      ensures Accepts(t, data, r) ==> OnFirstSegment(t, data, r)
    {
      InListIff(t, data, matched, r);
    }
  }

  // The least listed rule from `from` on and before `end`, or -1.
  function LeastListed(matched: seq<Byte>, from: nat, end: nat): (r: int)
    requires from <= end
    ensures r == -1 || (from <= r < end && InList(matched, r))
    ensures forall k: nat :: from <= k < (if r == -1 then end else r) ==> !InList(matched, k)
    decreases end - from
  {
    if from == end then -1
    else if InList(matched, from) then from
    else LeastListed(matched, from + 1, end)
  }

  // The first rule from `from` on and before `end` that the first segment accepts, or -1.
  function FirstOnSegment(t: Table, data: seq<Byte>, from: nat, end: nat): (r: int)
    requires t.Valid() && from <= end
    ensures r == -1 || (from <= r < end && OnFirstSegment(t, data, r))
    ensures forall k: nat :: from <= k < (if r == -1 then end else r) ==> !OnFirstSegment(t, data, k)
    decreases end - from
  {
    if from == end then -1
    else if OnFirstSegment(t, data, from) then from
    else FirstOnSegment(t, data, from + 1, end)
  }

  // The first rule behind the last whole word that the first segment accepts, or -1.
  function FirstTail(t: Table, data: seq<Byte>): int
    requires t.Valid()
  {
    RulesFit(t);
    FirstOnSegment(t, data, t.Rules(), 8 * t.RowBytes())
  }

  /** The least listed rule is the first match in the whole words, or, if there is none, the first later rule that the first
      segment accepts. */
  lemma LeastListedIs(t: Table, data: seq<Byte>, matched: seq<Byte>)
    requires t.Valid() && MatchList(t, data, matched)
    ensures LeastListed(matched, 0, 8 * t.RowBytes())
            == if LinearScan(t, data, 0, t.Rules()) >= 0 then LinearScan(t, data, 0, t.Rules())
               else FirstTail(t, data)
  {
    RulesFit(t);
    var end := 8 * t.RowBytes();
    var l, s, f := LeastListed(matched, 0, end), LinearScan(t, data, 0, t.Rules()), FirstTail(t, data);
    if s >= 0 {
      InListIff(t, data, matched, s);
    } else if f >= 0 {
      InListIff(t, data, matched, f);
    }
    if l >= 0 {
      InListIff(t, data, matched, l);
    }
  }

  /** So the least listed rule of a row is the answer of the scan of the row if and only if a rule of the whole words matches,
      or the first later rule that the first segment accepts matches, or the first segment accepts none of these. */
  lemma LeastListedIsScanIff(t: Table, data: seq<Byte>, matched: seq<Byte>)
    requires t.Valid() && MatchList(t, data, matched)
    ensures LeastListed(matched, 0, 8 * t.RowBytes()) == LinearScan(t, data, 0, 8 * t.RowBytes()) <==>
            || LinearScan(t, data, 0, t.Rules()) >= 0
            || FirstTail(t, data) == -1
            || Accepts(t, data, FirstTail(t, data))
  {
    RulesFit(t);
    LeastListedIs(t, data, matched);
    ScanPrefix(t, data, 0, t.Rules(), 8 * t.RowBytes());
    var f, s := FirstTail(t, data), LinearScan(t, data, 0, 8 * t.RowBytes());
    if s >= 0 {
      assert AcceptsFirst(t, data, t.tabNum, s) && OnFirstSegment(t, data, s);
    }
    if LinearScan(t, data, 0, t.Rules()) == -1 && f >= 0 && Accepts(t, data, f) {
      forall k: nat | k < f
        ensures !Accepts(t, data, k)
      {
        assert k >= t.Rules() ==> !OnFirstSegment(t, data, k);
      }
      FirstRule(t, data, f, 8 * t.RowBytes());
    }
  }

  /** And it is the answer of BITMATCH_MatchFirst if and only if the first match of the whole words lies in the lower half of
      its word, or there is none and the first segment accepts no later rule. */
  lemma MatchFirstIsLeastListedIff(t: Table, data: seq<Byte>, matched: seq<Byte>)
    requires t.Valid() && MatchList(t, data, matched)
    ensures var s := LinearScan(t, data, 0, t.Rules());
            Reported(s) == LeastListed(matched, 0, 8 * t.RowBytes()) <==>
            if s >= 0 then s % 64 <= 31 else FirstTail(t, data) == -1
  {
    RulesFit(t);
    LeastListedIs(t, data, matched);
    ReportedIff(LinearScan(t, data, 0, t.Rules()), t.Rules());
  }

  /** Two segments of eight bits and 72 rules: rule 64, accepted in segment 0 and rejected in segment 1, is listed. */
  lemma TailRuleListed(t: Table, matched: seq<Byte>)
    requires t.Valid() && t.segBits == 8 && t.tabNum == 2 && t.maxRule == 72 && MatchList(t, [5, 6], matched)
    requires RuleBit(t, 0, 5, 64) && !RuleBit(t, 1, 6, 64)
    ensures InList(matched, 64) && !Accepts(t, [5, 6], 64)
  {
    Values8(t, [5, 6], 0);
    Values8(t, [5, 6], 1);
    InListIff(t, [5, 6], matched, 64);
    assert !RuleBit(t, 1, Value(t, [5, 6], 1), 64);
  }

  /** Such tables exist: what BITMATCH_Create gives, with rule 64 added for the value 5 in segment 0. */
  lemma TailRuleListedFromBlank() returns (t: Table)
    ensures t.Valid() && t.segBits == 8 && t.tabNum == 2 && t.maxRule == 72
    ensures RuleBit(t, 0, 5, 64) && !RuleBit(t, 1, 6, 64)
  {
    var blank := Blank(2, 72);
    BlankAcceptsNothing(2, 72, 0, 5, 64);
    BlankAcceptsNothing(2, 72, 1, 6, 64);
    assert 6 < Pow2(blank.segBits) by { Pow2_8(); }
    t := OneStore(blank, 0, 5, 64);
    assert Place(blank, 0, 5, 64) && Place(blank, 1, 6, 64);
  }
}
