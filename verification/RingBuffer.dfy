/**
 The ring as the C code writes it, run by one thread at a time: RING_DoEnqueue and RING_DoDequeue against a queue.
 */
module RingBuffer {
  import opened Bits
  import opened RingProtocol
  import opened RingCopy

  function Min(a: nat, b: nat): nat {
    if a > b then b else a
  }

  // RING_S
  class Ring<T> {
    const cfg: Config
    const data: array<T>
    var prodHead: nat
    var prodTail: nat
    var consHead: nat
    var consTail: nat
    // How many objects have gone in and out since RING_Init.
    ghost var pushed: nat
    ghost var popped: nat

    ghost predicate Counters()
      reads this
    {
      && cfg.Valid() && cfg.capacity == cfg.Size() && data.Length == cfg.Size()
      && popped <= pushed <= popped + cfg.capacity
      && prodTail == U32(pushed) && consTail == U32(popped)
    }

    ghost predicate Valid()
      reads this
    {
      Counters() && prodHead == prodTail && consHead == consTail
    }

    ghost function Used(): nat
      reads this
      requires Counters()
    {
      pushed - popped
    }

    // The queued objects, oldest first.
    ghost function Contents(): (q: seq<T>)
      reads this, data
      requires Counters()
      ensures |q| == Used()
    {
      LoadAll(cfg, data[..], popped, Used())
    }

    /** RING_Init on a block of slots: the capacity is the number of slots. */
    constructor (cfg: Config, memory: array<T>)
      requires cfg.Valid() && cfg.capacity == cfg.Size() == memory.Length
      ensures Valid() && data == memory && this.cfg == cfg && Contents() == []
    {
      this.cfg := cfg;
      data := memory;
      prodHead, prodTail, consHead, consTail := 0, 0, 0, 0;
      pushed, popped := 0, 0;
    }

    // RING_MoveProdHead without interference
    method MoveProdHead(isSp: bool, max: nat, behavior: Behavior)
      returns (n: nat, oldHead: nat, newHead: nat, freeEntries: nat)
      requires Valid()
      modifies this`prodHead
      ensures freeEntries == cfg.capacity - Used()
      ensures n == Grant(max, behavior, freeEntries)
      ensures oldHead == prodTail && (n > 0 ==> newHead == U32(pushed + n))
      ensures prodHead == if n > 0 then newHead else prodTail
    {
      var success := false;
      n, oldHead, newHead, freeEntries := max, prodHead, 0, 0;
      while !success
        invariant success ==> 0 < n == Grant(max, behavior, freeEntries) && newHead == U32(pushed + n)
        invariant success ==> oldHead == prodTail && freeEntries == cfg.capacity - Used()
        invariant prodHead == if success then newHead else prodTail
        decreases !success
      {
        n := max;
        oldHead := prodHead;
        var tail := consTail;
        freeEntries := U32(cfg.capacity + tail - oldHead);
        FreeWord();
        if n > freeEntries {
          n := if behavior == Fixed then 0 else freeEntries;
        }
        if n == 0 {
          return;
        }
        newHead := U32(oldHead + n);
        ModAdd(pushed, n);
        if isSp || prodHead == oldHead {
          prodHead, success := newHead, true;
        }
      }
    }

    // The wrapped differences are the true amounts.
    lemma FreeWord()
      requires Counters()
      ensures U32(cfg.capacity + consTail - prodTail) == cfg.capacity - Used()
      ensures U32(prodTail - consTail) == Used() && cfg.capacity < WORD
    {
      assert cfg.capacity < WORD by {
        Pow2Monotone(cfg.order, 31);
        Pow2_32();
      }
      ModSub(popped, pushed, cfg.capacity);
      ModSub(pushed, popped, 0);
    }

    // RING_MoveConsHead without interference
    method MoveConsHead(isSc: bool, max: nat, behavior: Behavior)
      returns (n: nat, oldHead: nat, newHead: nat, entries: nat)
      requires Valid()
      modifies this`consHead
      ensures entries == Used()
      ensures n == Grant(max, behavior, entries)
      ensures oldHead == consTail && (n > 0 ==> newHead == U32(popped + n))
      ensures consHead == if n > 0 then newHead else consTail
    {
      var success := false;
      n, newHead, entries := max, 0, 0;
      oldHead := consHead;
      while !success
        invariant success ==> 0 < n == Grant(max, behavior, entries) && newHead == U32(popped + n)
        invariant oldHead == consTail && (success ==> entries == Used())
        invariant consHead == if success then newHead else consTail
        decreases !success
      {
        n := max;
        var tail := prodTail;
        entries := U32(tail - oldHead);
        FreeWord();
        if n > entries {
          n := if behavior == Fixed then 0 else entries;
        }
        if n == 0 {
          return;
        }
        newHead := U32(oldHead + n);
        ModAdd(popped, n);
        if isSc || consHead == oldHead {
          consHead, success := newHead, true;
        } else {
          oldHead := consHead;
        }
      }
    }

    // RING_ENQUEUE_PTRS and RING_UpdateTail
    method PutAndPublish(oldHead: nat, newHead: nat, objs: seq<T>, n: nat)
      requires Counters() && 0 < n <= |objs| && n <= cfg.capacity - Used()
      requires oldHead == prodTail && newHead == U32(pushed + n)
      modifies this`prodTail, this`pushed, data
      ensures Counters() && prodTail == newHead && Used() == old(Used()) + n
      ensures Contents() == old(Contents()) + objs[..n]
    {
      ghost var before, queued := data[..], Used();
      FreeWord();
      EnqueuePtrs(cfg, data, oldHead, objs, n);
      assert data[..] == StoreAll(cfg, before, U32(popped + queued), objs[..n]);
      prodTail := newHead;
      pushed := pushed + n;
      AfterEnqueue(cfg, before, popped, queued, objs[..n]);
    }

    /** RING_DoEnqueue appends the first objects of the table, as many as the behavior grants. */
    method DoEnqueue(objs: seq<T>, max: nat, behavior: Behavior, isSp: bool) returns (n: nat, freeSpace: nat)
      requires Valid() && max <= |objs|
      modifies this, data
      ensures Valid()
      ensures n == Grant(max, behavior, cfg.capacity - |old(Contents())|)
      ensures Contents() == old(Contents()) + objs[..n]
      ensures freeSpace == cfg.capacity - |Contents()|
    {
      var oldHead, newHead, freeEntries;
      n, oldHead, newHead, freeEntries := MoveProdHead(isSp, max, behavior);
      if n > 0 {
        PutAndPublish(oldHead, newHead, objs, n);
      }
      freeSpace := freeEntries - n;
    }

    // RING_DEQUEUE_PTRS and RING_UpdateTail
    method GetAndPublish(oldHead: nat, newHead: nat, table: array<T>, n: nat)
      requires Counters() && 0 < n <= table.Length && table != data && n <= Used()
      requires oldHead == consTail && newHead == U32(popped + n)
      modifies this`consTail, this`popped, table
      ensures Counters() && consTail == newHead && Used() == old(Used()) - n
      ensures table[..] == old(Contents())[..n] + old(table[..])[n..]
      ensures Contents() == old(Contents())[n..]
    {
      FreeWord();
      AfterDequeue(cfg, data[..], popped, n, Used());
      DequeuePtrs(cfg, data, oldHead, table, n);
      consTail := newHead;
      popped := popped + n;
    }

    /** RING_DoDequeue moves the oldest objects to the front of the table, as many as the behavior grants. */
    method DoDequeue(table: array<T>, max: nat, behavior: Behavior, isSc: bool) returns (n: nat, available: nat)
      requires Valid() && max <= table.Length && table != data
      modifies this, table
      ensures Valid()
      ensures n == Grant(max, behavior, |old(Contents())|)
      ensures table[..] == old(Contents())[..n] + old(table[..])[n..]
      ensures Contents() == old(Contents())[n..]
      ensures available == |Contents()|
    {
      var oldHead, newHead, entries;
      n, oldHead, newHead, entries := MoveConsHead(isSc, max, behavior);
      if n > 0 {
        GetAndPublish(oldHead, newHead, table, n);
      }
      available := entries - n;
    }

    // RING_Count
    method Count() returns (count: nat)
      requires Valid()
      ensures count == if |Contents()| == cfg.Size() then 0 else |Contents()|
    {
      var tail: int := prodTail;
      var consumed: int := consTail;
      FreeWord();
      count := Slot(cfg, U32(tail - consumed));
      SlotMod(cfg, Used());
      Remainder(Used(), cfg.Size());
      count := Min(count, cfg.capacity);
    }
  }
}
