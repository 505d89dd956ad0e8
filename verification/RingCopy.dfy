/**
 The two copy macros of the ring: four objects at a time with a falling-through switch for the rest, or in two runs
 around the end of the slots. Both are the simple loop `ring[(head + i) & mask] <-> obj_table[i]`.
 */
module RingCopy {
  import opened Bits
  import opened RingProtocol

  // The simple copy loop: object i goes to slot (head + i) & mask.
  function StoreAll<T>(cfg: Config, slots: seq<T>, head: nat, items: seq<T>): (r: seq<T>)
    requires |slots| == cfg.Size()
    ensures |r| == |slots|
    decreases |items|
  {
    if items == [] then slots
    else
      var n := |items| - 1;
      StoreAll(cfg, slots, head, items[..n])[Slot(cfg, head + n) := items[n]]
  }

  // The simple loop puts at most one lap of objects where a reader finds them ...
  lemma {:induction false} StoreAllPuts<T>(cfg: Config, slots: seq<T>, head: nat, items: seq<T>, i: nat)
    requires |slots| == cfg.Size() && i < |items| <= cfg.Size()
    ensures StoreAll(cfg, slots, head, items)[Slot(cfg, head + i)] == items[i]
    decreases |items|
  {
    var n := |items| - 1;
    if i == n {
    } else {
      StoreAllPuts(cfg, slots, head, items[..n], i);
      SlotsDiffer(cfg, head + i, head + n);
    }
  }

  // ... and touches no other slot.
  lemma {:induction false} StoreAllKeeps<T>(cfg: Config, slots: seq<T>, head: nat, items: seq<T>, p: nat)
    requires |slots| == cfg.Size() && head + |items| <= p < head + cfg.Size()
    ensures StoreAll(cfg, slots, head, items)[Slot(cfg, p)] == slots[Slot(cfg, p)]
    decreases |items|
  {
    if items == [] {
    } else {
      var n := |items| - 1;
      StoreAllKeeps(cfg, slots, head, items[..n], p);
      SlotsDiffer(cfg, head + n, p);
    }
  }

  // What the simple loop reads.
  function LoadAll<T>(cfg: Config, slots: seq<T>, head: nat, n: nat): (r: seq<T>)
    requires |slots| == cfg.Size()
    ensures |r| == n
  {
    if n == 0 then [] else LoadAll(cfg, slots, head, n - 1) + [slots[Slot(cfg, head + n - 1)]]
  }

  lemma {:induction false} LoadAllAt<T>(cfg: Config, slots: seq<T>, head: nat, n: nat, j: nat)
    requires |slots| == cfg.Size() && j < n
    ensures LoadAll(cfg, slots, head, n)[j] == slots[Slot(cfg, head + j)]
  {
    if j == n - 1 {
    } else {
      LoadAllAt(cfg, slots, head, n - 1, j);
    }
  }

  // A reader gets back what the simple loop stored, and what was stored on top leaves older objects alone.
  lemma LoadAfterStore<T>(cfg: Config, slots: seq<T>, from: nat, n: nat, items: seq<T>)
    requires |slots| == cfg.Size() && n + |items| <= cfg.Size()
    ensures LoadAll(cfg, StoreAll(cfg, slots, from + n, items), from, n + |items|) == LoadAll(cfg, slots, from, n) + items
  {
    var got := LoadAll(cfg, StoreAll(cfg, slots, from + n, items), from, n + |items|);
    var earlier := LoadAll(cfg, slots, from, n);
    forall j | 0 <= j < n + |items|
      ensures got[j] == if j < n then earlier[j] else items[j - n]
    {
      LoadAfterStoreAt(cfg, slots, from, n, items, j);
    }
    assert got == earlier + items;
  }

  lemma LoadAfterStoreAt<T>(cfg: Config, slots: seq<T>, from: nat, n: nat, items: seq<T>, j: nat)
    requires |slots| == cfg.Size() && n + |items| <= cfg.Size() && j < n + |items|
    ensures LoadAll(cfg, StoreAll(cfg, slots, from + n, items), from, n + |items|)[j]
            == if j < n then LoadAll(cfg, slots, from, n)[j] else items[j - n]
  {
    LoadAllAt(cfg, StoreAll(cfg, slots, from + n, items), from, n + |items|, j);
    if j < n {
      LoadOlder(cfg, slots, from, n, items, j);
    } else {
      StoreAllPuts(cfg, slots, from + n, items, j - n);
    }
  }

  lemma LoadOlder<T>(cfg: Config, slots: seq<T>, from: nat, n: nat, items: seq<T>, j: nat)
    requires |slots| == cfg.Size() && n + |items| <= cfg.Size() && j < n
    ensures StoreAll(cfg, slots, from + n, items)[Slot(cfg, from + j)] == LoadAll(cfg, slots, from, n)[j]
  {
    LoadAllAt(cfg, slots, from, n, j);
    SlotFrom(cfg, from + j, cfg.Size());
    StoreAllKeeps(cfg, slots, from + n, items, from + j + cfg.Size());
  }

  // Dropping what a reader took leaves the rest.
  lemma {:induction false} LoadSplit<T>(cfg: Config, slots: seq<T>, from: nat, a: nat, b: nat)
    requires |slots| == cfg.Size()
    ensures LoadAll(cfg, slots, from, a + b) == LoadAll(cfg, slots, from, a) + LoadAll(cfg, slots, from + a, b)
  {
    if b == 0 {
    } else {
      LoadSplit(cfg, slots, from, a, b - 1);
      assert from + a + b - 1 == from + (a + b) - 1;
    }
  }

  // A table after its first n objects have been read from the slots.
  function Loaded<T>(cfg: Config, slots: seq<T>, head: nat, n: nat, table: seq<T>): (r: seq<T>)
    requires |slots| == cfg.Size() && n <= |table|
    ensures |r| == |table|
  {
    LoadAll(cfg, slots, head, n) + table[n..]
  }

  // The state of the table in the dequeue macro: its first n objects come from the ring, the others are those of `before`.
  ghost predicate Got<T>(cfg: Config, ring: array<T>, table: array<T>, head: nat, n: nat, before: seq<T>)
    reads ring, table
  {
    && ring.Length == cfg.Size() && n <= |before|
    && table[..] == Loaded(cfg, ring[..], head, n, before)
  }

  // Index i of the copy loops, before and after the wrap.
  function Wrapped(size: nat, base: nat, i: nat): int {
    if base + i < size then base + i else base + i - size
  }

  lemma SlotFrom(cfg: Config, head: nat, i: nat)
    requires i <= cfg.Size()
    ensures Slot(cfg, head + i) == Wrapped(cfg.Size(), Slot(cfg, head), i)
  {
    SlotMod(cfg, head);
    SlotMod(cfg, head + i);
    ModFrom(head, cfg.Size(), i);
  }

  lemma ModFrom(head: nat, m: nat, i: nat)
    requires m > 0 && i <= m
    ensures (head + i) % m == Wrapped(m, head % m, i)
  {
    var base := head % m;
    assert head == (head / m) * m + base;
    if base + i < m {
      DivModUnique(head + i, m, head / m, base + i);
    } else {
      assert (head / m + 1) * m == (head / m) * m + m;
      DivModUnique(head + i, m, head / m + 1, base + i - m);
    }
  }

  lemma ByFour(n: nat)
    requires n < WORD
    ensures And(n, WORD - 4) == 4 * (n / 4) && And(n, 3) == n - 4 * (n / 4) < 4
  {
    Pow2_32();
    AndHighMask(n, 2, 32);
    AndLowMask(n, 2);
  }

  // The bounds of the unrolled loop: n & ~3 and n & 3.
  method SplitByFour(n: nat) returns (quads: nat, rest: nat, ghost rounds: nat)
    requires n < WORD
    ensures quads == 4 * rounds && quads + rest == n && rest < 4
  {
    ByFour(n);
    quads, rest, rounds := And(n, WORD - 4), And(n, 3), n / 4;
  }

  // One assignment of the copy loops.
  method PutOne<T>(cfg: Config, ring: array<T>, idx: nat, objs: seq<T>, i: nat, ghost head: nat, ghost before: seq<T>)
    requires ring.Length == cfg.Size() && i < |objs| && i < cfg.Size()
    requires idx == Wrapped(cfg.Size(), Slot(cfg, head), i)
    requires |before| == cfg.Size() && ring[..] == StoreAll(cfg, before, head, objs[..i])
    modifies ring
    ensures ring[..] == StoreAll(cfg, before, head, objs[..i + 1])
  {
    SlotFrom(cfg, head, i);
    ring[idx] := objs[i];
    assert objs[..i + 1][..i] == objs[..i];
  }

  method GetOne<T>(cfg: Config, ring: array<T>, idx: nat, table: array<T>, i: nat, ghost head: nat, ghost before: seq<T>)
    requires ring.Length == cfg.Size() && ring != table && i < table.Length && i < cfg.Size()
    requires idx == Wrapped(cfg.Size(), Slot(cfg, head), i)
    requires Got(cfg, ring, table, head, i, before)
    modifies table
    ensures Got(cfg, ring, table, head, i + 1, before)
  {
    SlotFrom(cfg, head, i);
    table[i] := ring[idx];
  }

  // The body of the unrolled loop.
  method PutFour<T>(cfg: Config, ring: array<T>, idx: nat, objs: seq<T>, i: nat, ghost head: nat, ghost before: seq<T>)
    requires ring.Length == cfg.Size() && i + 4 <= |objs| && |before| == cfg.Size()
    requires idx == Slot(cfg, head) + i && idx + 4 <= cfg.Size()
    requires ring[..] == StoreAll(cfg, before, head, objs[..i])
    modifies ring
    ensures ring[..] == StoreAll(cfg, before, head, objs[..i + 4])
  {
    PutOne(cfg, ring, idx, objs, i, head, before);
    PutOne(cfg, ring, idx + 1, objs, i + 1, head, before);
    PutOne(cfg, ring, idx + 2, objs, i + 2, head, before);
    PutOne(cfg, ring, idx + 3, objs, i + 3, head, before);
  }

  // The switch that falls through its cases 3, 2 and 1.
  method PutRest<T>(cfg: Config, ring: array<T>, idx0: nat, objs: seq<T>, i0: nat, rest: nat, ghost head: nat, ghost before: seq<T>)
    requires ring.Length == cfg.Size() && rest < 4 && i0 + rest <= |objs| && |before| == cfg.Size()
    requires idx0 == Slot(cfg, head) + i0 && idx0 + rest < cfg.Size()
    requires ring[..] == StoreAll(cfg, before, head, objs[..i0])
    modifies ring
    ensures ring[..] == StoreAll(cfg, before, head, objs[..i0 + rest])
  {
    var idx, i := idx0, i0;
    if rest == 3 {
      PutOne(cfg, ring, idx, objs, i, head, before);
      i, idx := i + 1, idx + 1;
    }
    if rest >= 2 {
      PutOne(cfg, ring, idx, objs, i, head, before);
      i, idx := i + 1, idx + 1;
    }
    if rest >= 1 {
      PutOne(cfg, ring, idx, objs, i, head, before);
      i, idx := i + 1, idx + 1;
    }
    assert i == i0 + rest;
  }

  // The run of slots does not reach the end of the ring: four objects at a time, then the rest.
  method PutStraight<T>(cfg: Config, ring: array<T>, start: nat, objs: seq<T>, n: nat, ghost head: nat)
    requires ring.Length == cfg.Size() && n <= |objs| && n < WORD
    requires start == Slot(cfg, head) && start + n < cfg.Size()
    modifies ring
    ensures ring[..] == StoreAll(cfg, old(ring[..]), head, objs[..n])
  {
    ghost var before := ring[..];
    var i, idx := 0, start;
    var quads, rest, rounds := SplitByFour(n);
    ghost var k := 0;
    assert objs[..0] == [];
    while i < quads
      invariant k <= rounds && i == 4 * k && idx == start + i
      invariant ring[..] == StoreAll(cfg, before, head, objs[..i])
    {
      PutFour(cfg, ring, idx, objs, i, head, before);
      i, idx, k := i + 4, idx + 4, k + 1;
    }
    assert i == quads;
    PutRest(cfg, ring, idx, objs, i, rest, head, before);
  }

  // The run of slots reaches the end of the ring: up to the end, then on from slot 0.
  method PutSplit<T>(cfg: Config, ring: array<T>, start: nat, objs: seq<T>, n: nat, ghost head: nat)
    requires ring.Length == cfg.Size() && n <= |objs| && n <= cfg.Size()
    requires start == Slot(cfg, head) && start + n >= cfg.Size()
    modifies ring
    ensures ring[..] == StoreAll(cfg, old(ring[..]), head, objs[..n])
  {
    ghost var before := ring[..];
    var size := cfg.Size();
    var i, idx := 0, start;
    assert objs[..0] == [];
    while idx < size
      invariant idx == start + i <= size
      invariant ring[..] == StoreAll(cfg, before, head, objs[..i])
    {
      PutOne(cfg, ring, idx, objs, i, head, before);
      i, idx := i + 1, idx + 1;
    }
    idx := 0;
    while i < n
      invariant i <= n && idx == start + i - size
      invariant ring[..] == StoreAll(cfg, before, head, objs[..i])
    {
      PutOne(cfg, ring, idx, objs, i, head, before);
      i, idx := i + 1, idx + 1;
    }
    assert i == n;
  }

  // RING_ENQUEUE_PTRS
  method EnqueuePtrs<T>(cfg: Config, ring: array<T>, prodHead: nat, objs: seq<T>, n: nat)
    requires ring.Length == cfg.Size() && n <= |objs| && n <= cfg.Size() && n < WORD
    modifies ring
    ensures ring[..] == StoreAll(cfg, old(ring[..]), prodHead, objs[..n])
  {
    var idx := Slot(cfg, prodHead);
    if idx + n < cfg.Size() {
      PutStraight(cfg, ring, idx, objs, n, prodHead);
    } else {
      PutSplit(cfg, ring, idx, objs, n, prodHead);
    }
  }

  // The body of the unrolled loop.
  method GetFour<T>(cfg: Config, ring: array<T>, idx: nat, table: array<T>, i: nat, ghost head: nat, ghost before: seq<T>)
    requires ring.Length == cfg.Size() && ring != table && i + 4 <= table.Length
    requires idx == Slot(cfg, head) + i && idx + 4 <= cfg.Size()
    requires Got(cfg, ring, table, head, i, before)
    modifies table
    ensures Got(cfg, ring, table, head, i + 4, before)
  {
    GetTwo(cfg, ring, idx, table, i, head, before);
    GetTwo(cfg, ring, idx + 2, table, i + 2, head, before);
  }

  method GetTwo<T>(cfg: Config, ring: array<T>, idx: nat, table: array<T>, i: nat, ghost head: nat, ghost before: seq<T>)
    requires ring.Length == cfg.Size() && ring != table && i + 2 <= table.Length
    requires idx == Slot(cfg, head) + i && idx + 2 <= cfg.Size()
    requires Got(cfg, ring, table, head, i, before)
    modifies table
    ensures Got(cfg, ring, table, head, i + 2, before)
  {
    GetOne(cfg, ring, idx, table, i, head, before);
    GetOne(cfg, ring, idx + 1, table, i + 1, head, before);
  }

  // The switch that falls through its cases 3, 2 and 1.
  method GetRest<T>(cfg: Config, ring: array<T>, idx0: nat, table: array<T>, i0: nat, rest: nat, ghost head: nat, ghost before: seq<T>)
    requires ring.Length == cfg.Size() && ring != table && rest < 4 && i0 + rest <= table.Length
    requires idx0 == Slot(cfg, head) + i0 && idx0 + rest < cfg.Size()
    requires Got(cfg, ring, table, head, i0, before)
    modifies table
    ensures Got(cfg, ring, table, head, i0 + rest, before)
  {
    var idx, i := idx0, i0;
    if rest == 3 {
      GetOne(cfg, ring, idx, table, i, head, before);
      i, idx := i + 1, idx + 1;
    }
    if rest >= 2 {
      GetOne(cfg, ring, idx, table, i, head, before);
      i, idx := i + 1, idx + 1;
    }
    if rest >= 1 {
      GetOne(cfg, ring, idx, table, i, head, before);
      i, idx := i + 1, idx + 1;
    }
    assert i == i0 + rest;
  }

  // The unrolled loop.
  method GetQuads<T>(cfg: Config, ring: array<T>, start: nat, table: array<T>, quads: nat, ghost rounds: nat,
                     ghost head: nat) returns (i: nat, idx: nat)
    requires ring.Length == cfg.Size() && ring != table && quads == 4 * rounds && quads <= table.Length
    requires start == Slot(cfg, head) && start + quads < cfg.Size()
    modifies table
    ensures i == quads && idx == start + i && Got(cfg, ring, table, head, i, old(table[..]))
  {
    ghost var before := table[..];
    ghost var k := 0;
    i, idx := 0, start;
    while i < quads
      invariant k <= rounds && i == 4 * k && idx == start + i
      invariant Got(cfg, ring, table, head, i, before)
    {
      GetFour(cfg, ring, idx, table, i, head, before);
      i, idx, k := i + 4, idx + 4, k + 1;
    }
  }

  // The run of slots does not reach the end of the ring: four objects at a time, then the rest.
  method GetStraight<T>(cfg: Config, ring: array<T>, start: nat, table: array<T>, n: nat, ghost head: nat)
    requires ring.Length == cfg.Size() && ring != table && n <= table.Length && n < WORD
    requires start == Slot(cfg, head) && start + n < cfg.Size()
    modifies table
    ensures Got(cfg, ring, table, head, n, old(table[..]))
  {
    ghost var before := table[..];
    var quads, rest, rounds := SplitByFour(n);
    var i, idx := GetQuads(cfg, ring, start, table, quads, rounds, head);
    GetRest(cfg, ring, idx, table, i, rest, head, before);
  }

  // Up to the end of the slots.
  method GetToEnd<T>(cfg: Config, ring: array<T>, start: nat, table: array<T>, ghost head: nat) returns (i: nat)
    requires ring.Length == cfg.Size() && ring != table && cfg.Size() - start <= table.Length
    requires start == Slot(cfg, head)
    modifies table
    ensures i == cfg.Size() - start && Got(cfg, ring, table, head, i, old(table[..]))
  {
    ghost var before := table[..];
    var size, idx := cfg.Size(), start;
    i := 0;
    while idx < size
      invariant idx == start + i <= size
      invariant Got(cfg, ring, table, head, i, before)
    {
      GetOne(cfg, ring, idx, table, i, head, before);
      i, idx := i + 1, idx + 1;
    }
  }

  // On from slot 0.
  method GetWrapped<T>(cfg: Config, ring: array<T>, start: nat, table: array<T>, i0: nat, n: nat, ghost head: nat,
                       ghost before: seq<T>)
    requires ring.Length == cfg.Size() && ring != table && i0 <= n <= table.Length && n <= cfg.Size()
    requires start == Slot(cfg, head) && start + i0 == cfg.Size()
    requires Got(cfg, ring, table, head, i0, before)
    modifies table
    ensures Got(cfg, ring, table, head, n, before)
  {
    var i, idx := i0, 0;
    while i < n
      invariant i0 <= i <= n && idx == i - i0
      invariant Got(cfg, ring, table, head, i, before)
    {
      GetOne(cfg, ring, idx, table, i, head, before);
      i, idx := i + 1, idx + 1;
    }
  }

  // The run of slots reaches the end of the ring.
  method GetSplit<T>(cfg: Config, ring: array<T>, start: nat, table: array<T>, n: nat, ghost head: nat)
    requires ring.Length == cfg.Size() && ring != table && n <= table.Length && n <= cfg.Size()
    requires start == Slot(cfg, head) && start + n >= cfg.Size()
    modifies table
    ensures Got(cfg, ring, table, head, n, old(table[..]))
  {
    ghost var before := table[..];
    var i := GetToEnd(cfg, ring, start, table, head);
    GetWrapped(cfg, ring, start, table, i, n, head, before);
  }

  // RING_DEQUEUE_PTRS
  method DequeuePtrs<T>(cfg: Config, ring: array<T>, consHead: nat, table: array<T>, n: nat)
    requires ring.Length == cfg.Size() && ring != table && n <= table.Length && n <= cfg.Size() && n < WORD
    modifies table
    ensures table[..] == Loaded(cfg, ring[..], consHead, n, old(table[..]))
  {
    var idx := Slot(cfg, consHead);
    if idx + n < cfg.Size() {
      GetStraight(cfg, ring, idx, table, n, consHead);
    } else {
      GetSplit(cfg, ring, idx, table, n, consHead);
    }
  }

  // The copy loops see heads as words; the slots are those of the unbounded counters.
  lemma {:induction false} SameStore<T>(cfg: Config, slots: seq<T>, head: nat, items: seq<T>)
    requires cfg.Valid() && |slots| == cfg.Size()
    ensures StoreAll(cfg, slots, U32(head), items) == StoreAll(cfg, slots, head, items)
    decreases |items|
  {
    if items == [] {
    } else {
      SameStore(cfg, slots, head, items[..|items| - 1]);
      SlotOfWord(cfg, head, |items| - 1);
    }
  }

  lemma {:induction false} SameLoad<T>(cfg: Config, slots: seq<T>, head: nat, n: nat)
    requires cfg.Valid() && |slots| == cfg.Size()
    ensures LoadAll(cfg, slots, U32(head), n) == LoadAll(cfg, slots, head, n)
  {
    if n == 0 {
    } else {
      SameLoad(cfg, slots, head, n - 1);
      SlotOfWord(cfg, head, n - 1);
    }
  }

  lemma SlotOfWord(cfg: Config, head: nat, i: nat)
    requires cfg.Valid()
    ensures Slot(cfg, U32(head) + i) == Slot(cfg, head + i)
  {
    WrappedSlot(cfg, U32(head) + i);
    WrappedSlot(cfg, head + i);
    ModAdd(head, i);
  }

  lemma AfterEnqueue<T>(cfg: Config, slots: seq<T>, popped: nat, queued: nat, items: seq<T>)
    requires cfg.Valid() && |slots| == cfg.Size() && queued + |items| <= cfg.Size()
    ensures LoadAll(cfg, StoreAll(cfg, slots, U32(popped + queued), items), popped, queued + |items|)
            == LoadAll(cfg, slots, popped, queued) + items
  {
    SameStore(cfg, slots, popped + queued, items);
    LoadAfterStore(cfg, slots, popped, queued, items);
  }

  lemma AfterDequeue<T>(cfg: Config, slots: seq<T>, popped: nat, n: nat, queued: nat)
    requires cfg.Valid() && |slots| == cfg.Size() && n <= queued
    ensures LoadAll(cfg, slots, U32(popped), n) == LoadAll(cfg, slots, popped, queued)[..n]
    ensures LoadAll(cfg, slots, popped + n, queued - n) == LoadAll(cfg, slots, popped, queued)[n..]
  {
    SameLoad(cfg, slots, popped, n);
    LoadSplit(cfg, slots, popped, n, queued - n);
  }
}
