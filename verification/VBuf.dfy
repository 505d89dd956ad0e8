/**
 The growable byte buffer: a block with free room at the head and at the tail, against a sequence of bytes.
 */
module VBuf {
  import opened Bits

  const BS_OK: int := 0
  const BS_NO_MEMORY: int := -10

  // ----- What the growth policy computes.

  // The doubling loop.
  function DoubleUp(size: nat, min: nat): (r: nat)
    requires size > 0
    ensures r >= min && r >= size
    ensures size < min ==> r < 2 * min
    decreases min - size
  {
    if size < min then DoubleUp(2 * size, min) else size
  }

  function GrowTarget(doubleMem: bool, total: nat, min: nat): nat {
    if doubleMem then DoubleUp(if total == 0 then 1 else total, min) else min
  }

  // A request for `min` bytes does not lose high bits when it is narrowed to UINT.
  predicate Fits(doubleMem: bool, total: nat, min: nat) {
    min <= total || GrowTarget(doubleMem, total, min) <= 0xffff_ffff
  }

  // A request for `min` bytes takes memory: what it asks for, narrowed, is more than there is.
  predicate Allocates(doubleMem: bool, total: nat, min: nat) {
    min > total && U32(GrowTarget(doubleMem, total, min)) > total
  }

  /** Memory is taken for every request that does not fit the block and is not narrowed, and for no request that fits it. */
  lemma AllocatesUnlessNarrowed(doubleMem: bool, total: nat, min: nat)
    ensures Fits(doubleMem, total, min) ==> (Allocates(doubleMem, total, min) <==> min > total)
    ensures min <= total ==> !Allocates(doubleMem, total, min)
  {
  }

  /** Up to 2^31 bytes every request fits, whatever the policy. */
  lemma HalfWordFits(doubleMem: bool, total: nat, min: nat)
    requires min <= 0x8000_0000
    ensures Fits(doubleMem, total, min)
  {
  }

  // The capacity after a successful growth to `target` bytes.
  function Grown(total: nat, target: nat): nat {
    if U32(target) <= total then total else U32(target)
  }

  /** A growth makes room if and only if it is not narrowed. */
  lemma GrownIff(doubleMem: bool, total: nat, min: nat)
    ensures Grown(total, GrowTarget(doubleMem, total, min)) >= min <==> Fits(doubleMem, total, min)
  {
  }

  /** Doubling 2^31 bytes to hold one more gives 2^32, which is narrowed to 0: the growth succeeds and leaves no room. */
  lemma NarrowedDoubling()
    ensures GrowTarget(true, 0x8000_0000, 0x8000_0001) == 0x1_0000_0000 && !Fits(true, 0x8000_0000, 0x8000_0001)
    ensures Grown(0x8000_0000, 0x1_0000_0000) == 0x8000_0000
  {
    assert DoubleUp(0x1_0000_0000, 0x8000_0001) == 0x1_0000_0000;
  }

  // ----- The C library.

  // MEM_Malloc: its parameter is a UINT, and whether there is memory is an argument here. The block is not initialised.
  method Malloc(size: nat, memory: bool) returns (p: array?<Byte>)
    ensures p != null <==> memory
    ensures p != null ==> fresh(p) && p.Length == U32(size)
  {
    p := null;
    if memory {
      p := new Byte[U32(size)];
    }
  }

  // MEM_MallocAndCopy
  method MallocAndCopy(src: array?<Byte>, from: nat, len: nat, size: nat, memory: bool) returns (p: array?<Byte>)
    requires len <= size <= 0xffff_ffff && (len > 0 ==> src != null && from + len <= src.Length)
    ensures p != null <==> memory
    ensures p != null ==> fresh(p) && p.Length == size
    ensures p != null && len > 0 ==> p[..len] == src[from..from + len]
  {
    p := Malloc(size, memory);
    if p != null && len > 0 {
      forall i | 0 <= i < len {
        p[i] := src[from + i];
      }
    }
  }

  // memmove inside one block; the two ranges may overlap. Bytes that go beyond the block are not part of it.
  method Memmove(a: array<Byte>, dst: nat, src: nat, len: nat)
    requires src + len <= a.Length
    modifies a
    ensures dst + len <= a.Length ==> a[..] == old(a[..dst]) + old(a[src..src + len]) + old(a[dst + len..])
  {
    forall i | 0 <= i < len && dst + i < a.Length {
      a[dst + i] := a[src + i];
    }
  }

  // memcpy into a block; the same.
  method Memcpy(a: array<Byte>, dst: nat, buf: seq<Byte>)
    modifies a
    ensures dst + |buf| <= a.Length ==> a[..] == old(a[..dst]) + buf + old(a[dst + |buf|..])
  {
    forall i | 0 <= i < |buf| && dst + i < a.Length {
      a[dst + i] := buf[i];
    }
  }

  // Bytes written right behind a slice extend it.
  lemma WriteBehind(a: seq<Byte>, b: seq<Byte>, from: nat, to: nat, buf: seq<Byte>)
    requires from <= to && to + |buf| <= |a| && b == a[..to] + buf + a[to + |buf|..]
    ensures b[from..to + |buf|] == a[from..to] + buf
  {
  }

  // A sequence with `cut` bytes taken out.
  function Without(s: seq<Byte>, from: nat, cut: nat): seq<Byte>
    requires from + cut <= |s|
  {
    s[..from] + s[from + cut..]
  }

  // Bytes moved down inside a slice close the gap.
  lemma CloseGap(a: seq<Byte>, b: seq<Byte>, lo: nat, from: nat, cut: nat, len: nat)
    requires lo + from + cut + len <= |a|
    requires b == a[..lo + from] + a[lo + from + cut..lo + from + cut + len] + a[lo + from + len..]
    ensures b[lo..lo + (from + len)] == Without(a[lo..lo + (from + cut + len)], from, cut)
  {
  }

  // The memmove of VBUF_Cut.
  method MoveDown(a: array<Byte>, lo: nat, from: nat, cut: nat, len: nat)
    requires lo + from + cut + len <= a.Length
    modifies a
    ensures a[..][lo..lo + (from + len)] == Without(old(a[..])[lo..lo + (from + cut + len)], from, cut)
  {
    ghost var before := a[..];
    Memmove(a, lo + from, lo + from + cut, len);
    CloseGap(before, a[..], lo, from, cut, len);
  }

  // ----- The buffer.

  // Capacity, length and the bytes copied from block to block so far.
  datatype Growth = Growth(total: nat, used: nat, copied: nat)

  // VBUF_S
  class VBuf {
    var totleLen: nat
    var usedLen: nat
    var offset: nat
    var doubleMem: bool
    var data: array?<Byte>
    // The bytes copied by all reallocations so far.
    ghost var copied: nat

    ghost predicate Valid()
      reads this
    {
      && offset + usedLen <= totleLen
      && (if data == null then totleLen == 0 else data.Length == totleLen)
    }

    ghost function Contents(): (bytes: seq<Byte>)
      reads this, data
      requires Valid()
      ensures |bytes| == usedLen
    {
      if data == null then [] else data[..][offset..offset + usedLen]
    }

    ghost function State(): Growth
      reads this
    {
      Growth(totleLen, usedLen, copied)
    }

    // Nothing but the place of the bytes has changed since the old state.
    twostate predicate SameContents()
      reads this, data
    {
      && old(Valid()) && Valid() && (data == old(data) || fresh(data))
      && usedLen == old(usedLen) && doubleMem == old(doubleMem)
      && Contents() == old(Contents())
    }

    // VBUF_Init
    constructor ()
      ensures Valid() && Contents() == [] && State() == Growth(0, 0, 0) && !doubleMem && offset == 0 && data == null
    {
      totleLen, usedLen, offset, doubleMem, data, copied := 0, 0, 0, false, null, 0;
    }

    // VBUF_SetMemDouble
    method SetMemDouble(enable: bool)
      requires Valid()
      modifies this`doubleMem
      ensures Valid() && doubleMem == enable && Contents() == old(Contents())
    {
      doubleMem := enable;
    }

    /** _vbuf_expand_to: the length is narrowed to 32 bits on the way, so success means the room is there exactly when
        the length needs no more than 32 bits or the room was there before. */
    method ExpandTo(len: nat, memory: bool) returns (ret: int)
      requires Valid()
      modifies this
      ensures ret == if memory || U32(len) <= old(totleLen) then BS_OK else BS_NO_MEMORY
      ensures SameContents()
      ensures ret == BS_OK ==> (totleLen >= len <==> len <= old(totleLen) || len <= 0xffff_ffff)
      ensures ret == BS_OK && U32(len) > old(totleLen) ==>
                totleLen == U32(len) && offset == 0 && copied == old(copied) + usedLen
      ensures ret != BS_OK || U32(len) <= old(totleLen) ==>
                State() == old(State()) && offset == old(offset) && data == old(data)
    {
      var newTotleLen := U32(len);
      if newTotleLen <= totleLen {
        return BS_OK;
      }
      var tmp := MallocAndCopy(data, offset, usedLen, newTotleLen, memory);
      if tmp == null {
        return BS_NO_MEMORY;
      }
      ghost var before := Contents();
      copied := copied + usedLen;
      totleLen := newTotleLen;
      data := tmp;
      offset := 0;
      assert Contents() == before;
      return BS_OK;
    }

    // _vbuf_resize_double_up_to
    method ResizeDoubleUpTo(min: nat, memory: bool) returns (ret: int)
      requires Valid()
      modifies this
      ensures ret == if memory || U32(GrowTarget(true, old(totleLen), min)) <= old(totleLen) then BS_OK else BS_NO_MEMORY
      ensures SameContents()
      ensures Resized(GrowTarget(true, old(totleLen), min), ret)
    {
      var newSize := totleLen;
      if newSize == 0 {
        newSize := 1;
      }
      while newSize < min
        invariant newSize > 0
        invariant DoubleUp(newSize, min) == DoubleUp(if totleLen == 0 then 1 else totleLen, min)
        decreases min - newSize
      {
        newSize := newSize * 2;
      }
      ret := ExpandTo(newSize, memory);
    }

    // What a growth to `target` bytes does when it succeeds (narrowed or not) and when it fails.
    twostate predicate Resized(target: nat, ret: int)
      reads this
    {
      && totleLen == (if ret == BS_OK then Grown(old(totleLen), target) else old(totleLen))
      && usedLen == old(usedLen)
      && (if ret == BS_OK && U32(target) > old(totleLen) then offset == 0 && copied == old(copied) + usedLen
          else offset == old(offset) && copied == old(copied) && data == old(data))
    }

    /** _vbuf_resize_up_to: after success there is room for the length if and only if the growth is not narrowed. */
    method ResizeUpTo(len: nat, memory: bool) returns (ret: int)
      requires Valid()
      modifies this
      ensures ret == if memory || U32(GrowTarget(doubleMem, old(totleLen), len)) <= old(totleLen) then BS_OK else BS_NO_MEMORY
      ensures SameContents()
      ensures Resized(GrowTarget(doubleMem, old(totleLen), len), ret)
      ensures ret == BS_OK ==> (totleLen >= len <==> Fits(doubleMem, old(totleLen), len))
    {
      GrownIff(doubleMem, totleLen, len);
      if doubleMem {
        ret := ResizeDoubleUpTo(len, memory);
      } else {
        ret := ExpandTo(len, memory);
      }
    }

    /** VBUF_MoveData: without memory nothing moves. After success the data begins at the new offset, and the buffer is
        intact, with the same bytes, if and only if the growth was not narrowed; otherwise it reaches beyond the block. */
    method MoveData(newOffset: nat, memory: bool) returns (ret: int)
      requires Valid()
      modifies this, data
      ensures ret == if memory || newOffset == old(offset) || !Allocates(doubleMem, old(totleLen), old(usedLen) + newOffset)
                     then BS_OK else BS_NO_MEMORY
      ensures ret == BS_OK ==> offset == newOffset && usedLen == old(usedLen) && doubleMem == old(doubleMem)
      ensures ret == BS_OK ==> (Valid() <==> Fits(doubleMem, old(totleLen), old(usedLen) + newOffset))
      ensures ret == BS_OK && Fits(doubleMem, old(totleLen), old(usedLen) + newOffset) ==> SameContents()
      ensures ret != BS_OK ==> SameContents() && State() == old(State()) && offset == old(offset) && data == old(data)
      ensures usedLen + newOffset <= old(totleLen) ==> ret == BS_OK && State() == old(State()) && data == old(data)
    {
      if offset == newOffset {
        return BS_OK;
      }
      if usedLen + newOffset > totleLen {
        var grown := ResizeUpTo(totleLen + (usedLen + newOffset - totleLen), memory);
        if grown != BS_OK {
          return BS_NO_MEMORY;
        }
      }
      Slide(newOffset);
      return BS_OK;
    }

    // The memmove of VBUF_MoveData.
    method Slide(newOffset: nat)
      requires Valid()
      modifies this`offset, data
      ensures offset == newOffset
      ensures newOffset + usedLen <= totleLen ==> Valid() && Contents() == old(Contents())
    {
      if usedLen > 0 {
        Memmove(data, newOffset, offset, usedLen);
      }
      offset := newOffset;
    }

    /** _vbuf_pre_cat: after success there is room for len bytes behind the data if and only if the growth it may need is not
        narrowed. */
    method PreCat(len: nat, memory: bool) returns (ret: int)
      requires Valid()
      modifies this, data
      ensures ret == if memory || !Allocates(doubleMem, old(totleLen), old(usedLen) + len) then BS_OK else BS_NO_MEMORY
      ensures SameContents()
      ensures ret == BS_OK ==> (offset + usedLen + len <= totleLen <==> Fits(doubleMem, old(totleLen), usedLen + len))
      ensures ret != BS_OK ==> State() == old(State()) && offset == old(offset) && data == old(data)
      ensures ret == BS_OK ==> old(offset) == 0 ==> offset == 0
      ensures ret == BS_OK && Fits(doubleMem, old(totleLen), usedLen + len) ==>
                State() == (if usedLen + len <= old(totleLen) then old(State())
                            else Growth(GrowTarget(doubleMem, old(totleLen), usedLen + len), usedLen, old(copied) + usedLen))
    {
      var tailLen := (totleLen - offset) - usedLen;
      if tailLen >= len {
        return BS_OK;
      }
      if usedLen + len <= totleLen {
        ret := MoveData(0, memory);
        return;
      }
      ret := ResizeUpTo(usedLen + len, memory);
    }

    /** VBUF_CpyBuf: without memory nothing changes. After success the buffer is intact if and only if no allocation was
        narrowed, and then the contents are the given bytes; otherwise its capacity counts bytes that its block does not have. */
    method CpyBuf(buf: seq<Byte>, memory: bool) returns (ret: int)
      requires Valid()
      modifies this, data
      ensures (data == old(data) || fresh(data)) && doubleMem == old(doubleMem)
      ensures ret == if memory || |buf| <= old(totleLen) then BS_OK else BS_NO_MEMORY
      ensures ret == BS_OK ==> (Valid() <==> CpyFits(old(totleLen), |buf|))
      ensures ret == BS_OK && Valid() ==> Contents() == buf
      ensures ret == BS_OK ==> offset == 0
      ensures ret == BS_OK ==>
                State() == Growth(if old(totleLen) < |buf| then |buf| else old(totleLen), |buf|, old(copied))
      ensures ret != BS_OK ==> Valid() && State() == old(State()) && offset == old(offset) && data == old(data)
                               && Contents() == old(Contents())
    {
      if totleLen < |buf| {
        var tmp := Malloc(|buf|, memory);
        if tmp == null {
          return BS_NO_MEMORY;
        }
        totleLen := |buf|;
        data := tmp;
      }
      if data != null {
        Memcpy(data, 0, buf);
      }
      usedLen := |buf|;
      offset := 0;
      return BS_OK;
    }

    /** VBUF_CatBuf: without memory nothing changes. After success the buffer is intact if and only if nothing was narrowed,
        and then the bytes are appended; otherwise it counts bytes that its block does not have. */
    method CatBuf(buf: seq<Byte>, memory: bool) returns (ret: int)
      requires Valid()
      modifies this, data
      ensures (data == old(data) || fresh(data)) && doubleMem == old(doubleMem)
      ensures ret == if memory || !CatAllocates(doubleMem, old(totleLen), old(usedLen), |buf|) then BS_OK else BS_NO_MEMORY
      ensures ret == BS_OK ==> usedLen == old(usedLen) + |buf|
      ensures ret == BS_OK ==> (Valid() <==> CatFits(old(doubleMem), old(totleLen), old(usedLen), |buf|))
      ensures ret == BS_OK && Valid() ==> Contents() == old(Contents()) + buf
      ensures ret != BS_OK ==> Valid() && State() == old(State()) && offset == old(offset) && data == old(data)
                               && Contents() == old(Contents())
      ensures ret == BS_OK && old(offset) == 0 ==> offset == 0
      ensures ret == BS_OK && Valid() ==> State() == Append(doubleMem, old(State()), |buf|)
    {
      if usedLen == 0 {
        assert Contents() == [];
        ret := CpyBuf(buf, memory);
      } else {
        ret := CatMore(buf, memory);
      }
    }

    // VBUF_CatBuf on a buffer that is not empty
    method CatMore(buf: seq<Byte>, memory: bool) returns (ret: int)
      requires Valid() && usedLen > 0
      modifies this, data
      ensures (data == old(data) || fresh(data)) && doubleMem == old(doubleMem)
      ensures ret == if memory || !Allocates(doubleMem, old(totleLen), old(usedLen) + |buf|) then BS_OK else BS_NO_MEMORY
      ensures ret == BS_OK ==> usedLen == old(usedLen) + |buf|
      ensures ret == BS_OK ==> (Valid() <==> Fits(doubleMem, old(totleLen), old(usedLen) + |buf|))
      ensures ret == BS_OK && Valid() ==> Contents() == old(Contents()) + buf
      ensures ret != BS_OK ==> SameContents() && State() == old(State()) && offset == old(offset) && data == old(data)
      ensures ret == BS_OK && old(offset) == 0 ==> offset == 0
      ensures ret == BS_OK && Valid() ==> State() == Append(doubleMem, old(State()), |buf|)
    {
      ret := PreCat(|buf|, memory);
      if ret < 0 {
        return;
      }
      PutBehind(buf);
      return BS_OK;
    }

    // The copy behind the data.
    method PutBehind(buf: seq<Byte>)
      requires Valid() && data != null
      modifies this`usedLen, data
      ensures usedLen == old(usedLen) + |buf|
      ensures offset + usedLen <= totleLen ==> Valid() && Contents() == old(Contents()) + buf
    {
      ghost var before := data[..];
      Memcpy(data, offset + usedLen, buf);
      if offset + usedLen + |buf| <= totleLen {
        WriteBehind(before, data[..], offset, offset + usedLen, buf);
      }
      usedLen := usedLen + |buf|;
    }

    /** VBUF_Cut removes cutLen bytes (or all there are) from the given place on. From a place beyond the data it makes the
        data longer, and the buffer stays intact if and only if the block is that long. */
    method Cut(from: nat, cutLen: nat)
      requires Valid()
      modifies this, data
      ensures data == old(data) && offset == old(offset) && totleLen == old(totleLen)
      ensures Valid() <==> from <= old(usedLen) || offset + from <= totleLen
      ensures from <= old(usedLen) ==>
                Contents() == old(Contents())[..from]
                              + (if from + cutLen < old(usedLen) then old(Contents())[from + cutLen..] else [])
      ensures from > old(usedLen) && Valid() ==> old(Contents()) <= Contents() && usedLen == from
    {
      if from + cutLen >= usedLen {
        usedLen := from;
        return;
      }
      CloseUp(from, cutLen);
    }

    // The tail moves down over the bytes cut out.
    method CloseUp(from: nat, cutLen: nat)
      requires Valid() && from + cutLen < usedLen
      modifies this`usedLen, data
      ensures Valid() && Contents() == Without(old(Contents()), from, cutLen)
    {
      var rest := usedLen - (from + cutLen);
      MoveDown(data, offset, from, cutLen, rest);
      usedLen := from + rest;
    }

    /** VBUF_CutHead drops bytes at the front and slides the rest to the start of the block. */
    method CutHead(cutLen: nat)
      requires Valid()
      modifies this, data
      ensures Valid() && data == old(data) && offset == 0 && totleLen == old(totleLen)
      ensures Contents() == if cutLen < old(usedLen) then old(Contents())[cutLen..] else []
    {
      if cutLen < usedLen {
        usedLen := usedLen - cutLen;
        Memmove(data, 0, offset + cutLen, usedLen);
      } else {
        usedLen := 0;
      }
      offset := 0;
    }

    /** VBUF_EarseHead drops bytes at the front and leaves the rest in place. */
    method EarseHead(cutLen: nat)
      requires Valid()
      modifies this
      ensures Valid() && data == old(data) && totleLen == old(totleLen)
      ensures offset == if cutLen < old(usedLen) then old(offset) + cutLen else 0
      ensures Contents() == if cutLen < old(usedLen) then old(Contents())[cutLen..] else []
    {
      if cutLen < usedLen {
        usedLen := usedLen - cutLen;
        offset := offset + cutLen;
      } else {
        usedLen := 0;
        offset := 0;
      }
    }

    /** VBUF_CutTail drops bytes at the end. */
    method CutTail(cutLen: nat)
      requires Valid()
      modifies this
      ensures Valid() && data == old(data) && offset == old(offset) && totleLen == old(totleLen)
      ensures Contents() == if cutLen < old(usedLen) then old(Contents())[..old(usedLen) - cutLen] else []
    {
      if cutLen < usedLen {
        usedLen := usedLen - cutLen;
      } else {
        usedLen := 0;
      }
    }
  }

  // ----- The cost of appending.

  // A copy does not need an allocation that is narrowed.
  predicate CpyFits(total: nat, len: nat) {
    len <= total || len <= 0xffff_ffff
  }

  // An append does not need a growth that is narrowed, nor, on an empty buffer, such an allocation.
  predicate CatFits(doubleMem: bool, total: nat, used: nat, len: nat) {
    if used == 0 then CpyFits(total, len) else Fits(doubleMem, total, used + len)
  }

  // An append takes memory.
  predicate CatAllocates(doubleMem: bool, total: nat, used: nat, len: nat) {
    if used == 0 then len > total else Allocates(doubleMem, total, used + len)
  }

  /** Copying one byte more than a word counts into an empty buffer gets a block of no byte at all. */
  lemma NarrowedCopy()
    ensures !CpyFits(0, 0x1_0000_0000) && !CatFits(true, 0, 0, 0x1_0000_0000) && U32(0x1_0000_0000) == 0
  {
  }

  // What a successful VBUF_CatBuf of len bytes does to capacity, length and copying.
  function Append(doubleMem: bool, g: Growth, len: nat): Growth {
    if g.used == 0 then
      Growth(if g.total < len then len else g.total, len, g.copied)
    else if g.used + len <= g.total then
      g.(used := g.used + len)
    else
      Growth(GrowTarget(doubleMem, g.total, g.used + len), g.used + len, g.copied + g.used)
  }

  function AppendAll(doubleMem: bool, lens: seq<nat>): Growth {
    if lens == [] then Growth(0, 0, 0)
    else Append(doubleMem, AppendAll(doubleMem, lens[..|lens| - 1]), lens[|lens| - 1])
  }

  function Sum(lens: seq<nat>): nat {
    if lens == [] then 0 else Sum(lens[..|lens| - 1]) + lens[|lens| - 1]
  }

  // A size reached by doubling at least doubles.
  lemma DoubleUpDoubles(size: nat, min: nat)
    requires 0 < size < min
    ensures DoubleUp(size, min) >= 2 * size
  {
  }

  /** Amortised cost: with double_mem set, any run of appends to an empty buffer copies, over all reallocations
      together, fewer bytes than twice the final length, and never reserves twice what the contents need. */
  lemma {:induction false} AppendsCopyLinear(lens: seq<nat>)
    ensures var g := AppendAll(true, lens);
            && g.used == Sum(lens) <= g.total
            && g.copied <= g.total
            && (g.copied > 0 ==> g.copied < 2 * Sum(lens))
            && (g.total > 0 ==> g.total < 2 * Sum(lens))
  {
    if lens == [] {
    } else {
      var n := |lens| - 1;
      AppendsCopyLinear(lens[..n]);
      var g := AppendAll(true, lens[..n]);
      if g.used > 0 && g.used + lens[n] > g.total {
        DoubleUpDoubles(g.total, g.used + lens[n]);
      }
    }
  }

  function Lengths(bufs: seq<seq<Byte>>): seq<nat> {
    seq(|bufs|, i requires 0 <= i < |bufs| => |bufs[i]|)
  }

  function Concat(bufs: seq<seq<Byte>>): seq<Byte> {
    if bufs == [] then [] else Concat(bufs[..|bufs| - 1]) + bufs[|bufs| - 1]
  }

  lemma {:induction false} PrefixSum(lens: seq<nat>, k: nat)
    requires k <= |lens|
    ensures Sum(lens[..k]) <= Sum(lens)
    decreases |lens|
  {
    if k == |lens| {
      assert lens[..k] == lens;
    } else {
      PrefixSum(lens[..|lens| - 1], k);
      assert lens[..|lens| - 1][..k] == lens[..k];
    }
  }

  lemma NextAppend(doubleMem: bool, bufs: seq<seq<Byte>>, k: nat)
    requires k < |bufs|
    ensures AppendAll(doubleMem, Lengths(bufs[..k + 1])) == Append(doubleMem, AppendAll(doubleMem, Lengths(bufs[..k])), |bufs[k]|)
    ensures Concat(bufs[..k + 1]) == Concat(bufs[..k]) + bufs[k]
    ensures Sum(Lengths(bufs[..k + 1])) == Sum(Lengths(bufs[..k])) + |bufs[k]| <= Sum(Lengths(bufs))
  {
    assert bufs[..k + 1][..k] == bufs[..k];
    assert Lengths(bufs[..k + 1]) == Lengths(bufs[..k]) + [|bufs[k]|];
    assert (Lengths(bufs[..k]) + [|bufs[k]|])[..k] == Lengths(bufs[..k]);
    PrefixSum(Lengths(bufs), k + 1);
    assert Lengths(bufs)[..k + 1] == Lengths(bufs[..k + 1]);
  }

  // The buffer after the first k appends of a run.
  ghost predicate AfterAppends(v: VBuf, bufs: seq<seq<Byte>>, k: nat)
    reads v, v.data
  {
    && k <= |bufs| && v.Valid() && v.doubleMem
    && v.Contents() == Concat(bufs[..k]) && v.State() == AppendAll(true, Lengths(bufs[..k]))
    && v.usedLen == Sum(Lengths(bufs[..k]))
  }

  method CatNext(v: VBuf, bufs: seq<seq<Byte>>, k: nat, memory: bool) returns (ret: int)
    requires k < |bufs| && AfterAppends(v, bufs, k) && Sum(Lengths(bufs)) <= 0x8000_0000
    modifies v, v.data
    ensures v.data == old(v.data) || fresh(v.data)
    ensures ret == if memory || !Outgrows(bufs, k) then BS_OK else BS_NO_MEMORY
    ensures AfterAppends(v, bufs, if ret == BS_OK then k + 1 else k)
  {
    NextAppend(true, bufs, k);
    HalfWordFits(true, v.totleLen, v.usedLen + |bufs[k]|);
    AllocatesUnlessNarrowed(true, v.totleLen, v.usedLen + |bufs[k]|);
    ret := v.CatBuf(bufs[k], memory);
  }

  // After the first k appends the next one is longer than the room that is left.
  predicate Outgrows(bufs: seq<seq<Byte>>, k: nat)
    requires k < |bufs|
  {
    var g := AppendAll(true, Lengths(bufs[..k]));
    g.used + |bufs[k]| > g.total
  }

  // The appends before the k-th got the memory they needed.
  predicate Served(bufs: seq<seq<Byte>>, memory: seq<bool>, k: nat)
    requires k <= |bufs| == |memory|
  {
    forall i :: 0 <= i < k ==> memory[i] || !Outgrows(bufs, i)
  }

  /** Any run of appends of at most 2^31 bytes together to an empty buffer that doubles goes on up to the first that needs memory
      and gets none: the contents are the bytes appended, in order, and the reallocations have copied fewer bytes than twice
      their number. */
  method CatAll(v: VBuf, bufs: seq<seq<Byte>>, memory: seq<bool>) returns (ret: int, k: nat)
    requires v.Valid() && v.doubleMem && v.State() == Growth(0, 0, 0) && v.offset == 0
    requires Sum(Lengths(bufs)) <= 0x8000_0000 && |memory| == |bufs|
    modifies v, v.data
    ensures k <= |bufs| && Served(bufs, memory, k)
    ensures ret == if k == |bufs| then BS_OK else BS_NO_MEMORY
    ensures k < |bufs| ==> !memory[k] && Outgrows(bufs, k)
    ensures v.Valid() && v.Contents() == Concat(bufs[..k]) && v.State() == AppendAll(true, Lengths(bufs[..k]))
    ensures v.copied > 0 ==> v.copied < 2 * v.usedLen
    ensures v.totleLen > 0 ==> v.totleLen < 2 * v.usedLen
  {
    k := 0;
    ret := BS_OK;
    while k < |bufs| && ret == BS_OK
      invariant AfterAppends(v, bufs, k) && (v.data == old(v.data) || fresh(v.data)) && Served(bufs, memory, k)
      invariant ret == BS_OK || (ret == BS_NO_MEMORY && k < |bufs| && !memory[k] && Outgrows(bufs, k))
      decreases |bufs| - k, ret == BS_OK
    {
      ret := CatNext(v, bufs, k, memory[k]);
      if ret == BS_OK {
        k := k + 1;
      }
    }
    AppendsCopyLinear(Lengths(bufs[..k]));
  }
}
