/**
 What the ring promises, for every schedule of any number of producers and consumers.
 */
module RingTheorems {
  import opened Bits
  import opened RingProtocol
  import opened RingInvariant
  import opened RingCopy

  // ----- First in, first out: nothing lost, duplicated or invented.

  // The objects between the two tails, read through the mask.
  function Live<T>(cfg: Config, s: State<T>): (live: seq<T>)
    requires |s.slots| == cfg.Size() && s.cons.tail <= s.prod.tail
    ensures |live| == s.prod.tail - s.cons.tail
  {
    LoadAll(cfg, s.slots, s.cons.tail, s.prod.tail - s.cons.tail)
  }

  /** Conservation. In every reachable state, what the finished enqueues were given is what the finished dequeues
      received, followed by what the ring holds: in order, and each object exactly once. */
  lemma Conservation<T>(cfg: Config, s: State<T>)
    requires Inv(cfg, s)
    ensures Moved(s.log, Producer) == Moved(s.log, Consumer) + Live(cfg, s)
  {
    var live := Live(cfg, s);
    forall i | 0 <= i < |live|
      ensures live[i] == s.sent[s.cons.tail + i]
    {
      LoadAllAt(cfg, s.slots, s.cons.tail, |live|, i);
      assert Stored(cfg, s.slots, s.sent, s.cons.tail + i);
    }
    assert live == s.sent[s.cons.tail..s.prod.tail];
    assert s.sent[..s.prod.tail] == s.sent[..s.cons.tail] + s.sent[s.cons.tail..s.prod.tail];
  }

  /** Returns come back in the order of the claims: the i-th return of a side moved exactly the stream positions
      that follow those of the earlier returns of that side. */
  lemma ReturnsFollowTheStream<T>(cfg: Config, s: State<T>, i: nat)
    requires Inv(cfg, s) && i < |s.log|
    ensures var r := s.log[i];
            var from := |Moved(s.log[..i], r.call.role)|;
            from + |r.items| <= |s.sent| && r.items == s.sent[from..from + |r.items|]
  {
    var r := s.log[i];
    var before := Moved(s.log[..i], r.call.role);
    MovedPrefix(s.log, i + 1, r.call.role);
    assert s.log[..i + 1] == s.log[..i] + [r];
    MovedAppend(s.log[..i], r, r.call.role);
    assert before + r.items <= s.sent;
    assert r.items == (before + r.items)[|before|..];
  }

  lemma {:induction false} MovedPrefix<T>(log: seq<Return<T>>, k: nat, role: Role)
    requires k <= |log|
    ensures Moved(log[..k], role) <= Moved(log, role)
    decreases |log|
  {
    if k == |log| {
      assert log[..k] == log;
    } else {
      MovedPrefix(log[..|log| - 1], k, role);
      assert log[..|log| - 1][..k] == log[..k];
    }
  }

  // ----- No two accesses to one slot.

  /** No slot is written by two threads or written while it is read: whatever positions two calls have claimed,
      their slots differ. */
  lemma ClaimsUseDistinctSlots<T>(cfg: Config, s: State<T>, t: Tid, u: Tid, p: nat, q: nat)
    requires Inv(cfg, s) && t in s.threads && u in s.threads && t != u
    requires Claims(s.threads[t], s.threads[t].call.role, p) && Claims(s.threads[u], s.threads[u].call.role, q)
    ensures Slot(cfg, p) != Slot(cfg, q)
  {
    ClaimsBelowHead(cfg, s);
    assert p != q;
    if p < q {
      SlotsDiffer(cfg, p, q);
    } else {
      SlotsDiffer(cfg, q, p);
    }
  }

  // ----- Refusals are justified although other threads interfere.

  /** A call that comes back empty-handed was right at the instant it read the opposite tail, even if its own head
      value was stale by then: FIXED had fewer than n entries to take, VARIABLE had none. */
  lemma RefusalJustified<T>(cfg: Config, s: State<T>, tid: Tid)
    requires Inv(cfg, s) && tid in s.threads && s.threads[tid].pc.LoadTail?
    requires tid !in Next(cfg, Naturals, s, Step(tid)).threads && s.threads[tid].call.n > 0
    ensures var call := s.threads[tid].call;
            && Room(cfg, s, call.role) < call.n
            && (call.behavior.Variable? ==> Room(cfg, s, call.role) == 0)
  {
    assert OneThread(cfg, s, tid);
  }

  /** A call is granted in full whenever the room is there and its head value is current. */
  lemma GrantWhenRoom<T>(cfg: Config, s: State<T>, tid: Tid)
    requires Inv(cfg, s) && tid in s.threads && s.threads[tid].pc.LoadTail?
    requires 0 < s.threads[tid].call.n <= Room(cfg, s, s.threads[tid].call.role)
    ensures var s' := Next(cfg, Naturals, s, Step(tid));
            tid in s'.threads && s'.threads[tid].pc.Swap? && s'.threads[tid].pc.take == s.threads[tid].call.n
  {
    assert OneThread(cfg, s, tid);
  }

  /** The compare-and-swap is lost only to another claim: the head has moved past the value that was loaded. A call that loses
      it goes on with the arguments it came with, and nothing else changes. */
  lemma SwapLostOnlyToAClaim<T>(cfg: Config, s: State<T>, tid: Tid)
    requires Inv(cfg, s) && tid in s.threads && s.threads[tid].pc.Swap?
    ensures var s' := Next(cfg, Naturals, s, Step(tid));
            if SideOf(s, s.threads[tid].call.role).head > s.threads[tid].pc.head then
              && s'.threads.Keys == s.threads.Keys && OthersStay(s.threads, s'.threads, tid)
              && SameMemory(s, s') && s'.log == s.log
              && s'.threads[tid].call == s.threads[tid].call && !s'.threads[tid].pc.Copy? && !s'.threads[tid].pc.Swap?
            else Claims(s'.threads[tid], s.threads[tid].call.role, SideOf(s, s.threads[tid].call.role).head)
  {
    assert OneThread(cfg, s, tid);
    assert ThreadShape(s.threads[tid]);
  }

  // ----- No deadlock at publication.

  // Entries of one side that are claimed and not yet published.
  function Pending<T>(s: State<T>, role: Role): int {
    SideOf(s, role).head - SideOf(s, role).tail
  }

  /** While a side has unpublished claims, the call whose claim begins at the tail is there, and it is the one that
      its own steps bring to publication without waiting for anybody. */
  lemma SomeoneCanPublish<T>(cfg: Config, s: State<T>, role: Role) returns (t: Tid)
    requires Inv(cfg, s) && Pending(s, role) > 0
    ensures t in s.threads && s.threads[t].call.role == role && s.threads[t].pc.Copy?
    ensures s.threads[t].pc.head == SideOf(s, role).tail
  {
    var p := SideOf(s, role).tail;
    assert Covered(s.threads, role, SideOf(s, role));
    assert Claimed(s.threads, role, p);
    t :| t in s.threads && Claims(s.threads[t], role, p);
    assert OneThread(cfg, s, t);
  }

  // The steps of the front call up to and including its publication.
  function Steps<T>(tid: Tid, n: nat): (schedule: seq<Label<T>>)
    ensures |schedule| == n
  {
    if n == 0 then [] else [Step(tid)] + Steps(tid, n - 1)
  }

  lemma {:induction false} RunConcat<T>(cfg: Config, w: Arith, s: State<T>, a: seq<Label<T>>, b: seq<Label<T>>)
    requires Shape(cfg, s)
    ensures Run(cfg, w, s, a + b) == Run(cfg, w, Run(cfg, w, s, a), b)
    decreases |b|
  {
    if b == [] {
      assert a + b == a;
    } else {
      RunConcat(cfg, w, s, a, b[..|b| - 1]);
      assert (a + b)[..|a + b| - 1] == a + b[..|b| - 1];
    }
  }

  lemma RunFirst<T>(cfg: Config, w: Arith, s: State<T>, l: Label<T>, rest: seq<Label<T>>)
    requires Shape(cfg, s)
    ensures Run(cfg, w, s, [l] + rest) == Run(cfg, w, Next(cfg, w, s, l), rest)
  {
    assert [l][..0] == [];
    RunConcat(cfg, w, s, [l], rest);
  }

  ghost predicate AtFront<T>(s: State<T>, tid: Tid) {
    && tid in s.threads && s.threads[tid].pc.Copy? && |s.threads[tid].pc.moved| <= s.threads[tid].pc.take
    && s.threads[tid].pc.head == SideOf(s, s.threads[tid].call.role).tail
  }

  // How many steps the front call still needs.
  function Left<T>(th: Thread<T>): nat
    requires th.pc.Copy? && |th.pc.moved| <= th.pc.take
  {
    th.pc.take - |th.pc.moved| + 1
  }

  // s' is s with the claim of tid published and its call returned, and nothing else claimed, published or withdrawn.
  ghost predicate FrontPublished<T>(s: State<T>, s': State<T>, tid: Tid) {
    && tid in s.threads && s.threads[tid].pc.Copy?
    && var Thread(call, pc) := s.threads[tid];
       && SideOf(s', call.role) == Side(SideOf(s, call.role).head, pc.head + pc.take)
       && Opposite(s', call.role) == Opposite(s, call.role)
       && s'.threads == s.threads - {tid} && s'.sent == s.sent
       && pc.head + pc.take <= |s.sent| && pc.take <= pc.avail
       && s'.log == s.log + [Return(call, s.sent[pc.head..pc.head + pc.take], pc.avail - pc.take)]
  }

  lemma FrontCopies<T>(cfg: Config, s: State<T>, tid: Tid)
    requires Inv(cfg, s) && AtFront(s, tid) && Left(s.threads[tid]) > 1
    ensures var s' := Next(cfg, Naturals, s, Step(tid));
            && AtFront(s', tid) && Left(s'.threads[tid]) == Left(s.threads[tid]) - 1
            && forall s'' :: FrontPublished(s', s'', tid) ==> FrontPublished(s, s'', tid)
  {
    assert ThreadShape(s.threads[tid]);
    CopyStepEffect(cfg, Naturals, s, tid);
  }

  lemma FrontPublishes<T>(cfg: Config, s: State<T>, tid: Tid)
    requires Inv(cfg, s) && AtFront(s, tid) && Left(s.threads[tid]) == 1
    ensures FrontPublished(s, Next(cfg, Naturals, s, Step(tid)), tid)
  {
    assert Publishing(s, tid) by { assert ThreadShape(s.threads[tid]); }
    assert OneThread(cfg, s, tid);
    PublishStepEffect(cfg, Naturals, s, tid);
  }

  // The front call reaches publication by its own steps alone.
  lemma {:induction false} PublishFront<T>(cfg: Config, s: State<T>, tid: Tid)
    requires Inv(cfg, s) && AtFront(s, tid)
    ensures FrontPublished(s, Run(cfg, Naturals, s, Steps(tid, Left(s.threads[tid]))), tid)
    decreases Left(s.threads[tid])
  {
    var n := Left(s.threads[tid]) - 1;
    var s1 := Next(cfg, Naturals, s, Step(tid));
    RunFirst(cfg, Naturals, s, Step(tid), Steps(tid, n));
    if n == 0 {
      FrontPublishes(cfg, s, tid);
    } else {
      NextInv(cfg, Naturals, s, Step(tid));
      FrontCopies(cfg, s, tid);
      PublishFront(cfg, s1, tid);
    }
  }

  // A step that moves one call which has claimed nothing keeps all tails.
  lemma QuietKeepsFront<T>(cfg: Config, s: State<T>, tid: Tid, u: Tid)
    requires Shape(cfg, s) && AtFront(s, tid) && u in s.threads && !s.threads[u].pc.Copy?
    ensures var s' := Next(cfg, Naturals, s, Step(u));
            AtFront(s', tid) && s'.threads[tid] == s.threads[tid]
  {
    assert ThreadShape(s.threads[u]);
  }

  lemma CopyKeepsFront<T>(cfg: Config, s: State<T>, tid: Tid, u: Tid)
    requires Shape(cfg, s) && AtFront(s, tid) && Copying(s, u) && u != tid
    ensures var s' := Next(cfg, Naturals, s, Step(u));
            AtFront(s', tid) && s'.threads[tid] == s.threads[tid]
  {
    CopyStepEffect(cfg, Naturals, s, u);
  }

  // Another call of the same side cannot publish: its claim does not begin at the tail.
  lemma PublishKeepsFront<T>(cfg: Config, s: State<T>, tid: Tid, u: Tid)
    requires Inv(cfg, s) && AtFront(s, tid) && Publishing(s, u) && u != tid
    ensures var s' := Next(cfg, Naturals, s, Step(u));
            AtFront(s', tid) && s'.threads[tid] == s.threads[tid]
  {
    PublishStepEffect(cfg, Naturals, s, u);
    var role := s.threads[tid].call.role;
    if s.threads[u].call.role == role {
      PublishesInOrder(cfg, s, u);
      assert ThreadShape(s.threads[tid]);
      assert Claims(s.threads[tid], role, SideOf(s, role).tail) && Claims(s.threads[u], role, SideOf(s, role).tail);
      assert false;
    }
  }

  /** No step of another thread, and no new call, takes the front call back or keeps it from the tail. */
  lemma OthersKeepFront<T>(cfg: Config, s: State<T>, tid: Tid, l: Label<T>)
    requires Inv(cfg, s) && AtFront(s, tid) && l != Step(tid)
    ensures var s' := Next(cfg, Naturals, s, l);
            AtFront(s', tid) && s'.threads[tid] == s.threads[tid]
  {
    if l.Step? && l.tid in s.threads {
      var u := l.tid;
      assert ThreadShape(s.threads[u]);
      if !s.threads[u].pc.Copy? {
        QuietKeepsFront(cfg, s, tid, u);
      } else if |s.threads[u].pc.moved| < s.threads[u].pc.take {
        CopyKeepsFront(cfg, s, tid, u);
      } else if Publishing(s, u) {
        PublishKeepsFront(cfg, s, tid, u);
      }
    }
  }

  // How many steps of the call a schedule has.
  function StepsOf<T(==)>(schedule: seq<Label<T>>, tid: Tid): nat {
    if schedule == [] then 0 else (if schedule[0] == Step(tid) then 1 else 0) + StepsOf(schedule[1..], tid)
  }

  ghost predicate SameClaim<T>(th: Thread<T>, th': Thread<T>) {
    && th.pc.Copy? && th'.pc.Copy? && th'.call == th.call
    && th'.pc.head == th.pc.head && th'.pc.take == th.pc.take
  }

  // The claim of th is published and its call over.
  ghost predicate ClaimPublished<T>(th: Thread<T>, s: State<T>, tid: Tid) {
    th.pc.Copy? && tid !in s.threads && SideOf(s, th.call.role).tail == th.pc.head + th.pc.take
  }

  // Every step but the publication leaves the front call at the front, with the same claim and no more steps to go.
  lemma FrontAdvances<T>(cfg: Config, s: State<T>, tid: Tid, l: Label<T>)
    requires Inv(cfg, s) && AtFront(s, tid) && !(l == Step(tid) && Left(s.threads[tid]) == 1)
    ensures var s' := Next(cfg, Naturals, s, l);
            && Inv(cfg, s') && AtFront(s', tid) && SameClaim(s.threads[tid], s'.threads[tid])
            && Left(s.threads[tid]) == Left(s'.threads[tid]) + (if l == Step(tid) then 1 else 0)
  {
    NextInv(cfg, Naturals, s, l);
    if l == Step(tid) {
      FrontCopies(cfg, s, tid);
      CopyKeepsClaim(cfg, s, tid);
    } else {
      OthersKeepFront(cfg, s, tid, l);
    }
  }

  // After the first k steps of the schedule the claim of th is published and its call over.
  ghost predicate PublishedAfter<T>(cfg: Config, s: State<T>, th: Thread<T>, tid: Tid, schedule: seq<Label<T>>, k: nat)
    requires Shape(cfg, s)
  {
    k <= |schedule| && ClaimPublished(th, Run(cfg, Naturals, s, schedule[..k]), tid)
  }

  lemma PublishedNow<T>(cfg: Config, s: State<T>, tid: Tid, schedule: seq<Label<T>>)
    requires Inv(cfg, s) && AtFront(s, tid) && Left(s.threads[tid]) == 1 && schedule != [] && schedule[0] == Step(tid)
    ensures PublishedAfter(cfg, s, s.threads[tid], tid, schedule, 1)
  {
    FrontPublishes(cfg, s, tid);
    RunPrefix(cfg, s, schedule, 0);
  }

  lemma PublishedLater<T>(cfg: Config, s: State<T>, th: Thread<T>, th': Thread<T>, tid: Tid, schedule: seq<Label<T>>, k: nat)
    requires Shape(cfg, s) && schedule != [] && SameClaim(th, th')
    requires PublishedAfter(cfg, Next(cfg, Naturals, s, schedule[0]), th', tid, schedule[1..], k)
    ensures PublishedAfter(cfg, s, th, tid, schedule, k + 1)
  {
    RunPrefix(cfg, s, schedule, k);
  }

  lemma RunPrefix<T>(cfg: Config, s: State<T>, schedule: seq<Label<T>>, k: nat)
    requires Shape(cfg, s) && k < |schedule|
    ensures Run(cfg, Naturals, s, schedule[..k + 1]) == Run(cfg, Naturals, Next(cfg, Naturals, s, schedule[0]), schedule[1..][..k])
  {
    assert schedule[..k + 1] == [schedule[0]] + schedule[1..][..k];
    RunFirst(cfg, Naturals, s, schedule[0], schedule[1..][..k]);
  }

  /** So every schedule, whatever the other threads do in it, publishes the front call once it has Left steps of that call. */
  lemma {:induction false} AnySchedulePublishes<T>(cfg: Config, s: State<T>, tid: Tid, schedule: seq<Label<T>>) returns (k: nat)
    requires Inv(cfg, s) && AtFront(s, tid) && StepsOf(schedule, tid) >= Left(s.threads[tid])
    ensures PublishedAfter(cfg, s, s.threads[tid], tid, schedule, k)
    decreases |schedule|
  {
    var l := schedule[0];
    if l == Step(tid) && Left(s.threads[tid]) == 1 {
      k := 1;
      PublishedNow(cfg, s, tid, schedule);
    } else {
      var s1 := Next(cfg, Naturals, s, l);
      FrontAdvances(cfg, s, tid, l);
      var later := AnySchedulePublishes(cfg, s1, tid, schedule[1..]);
      k := later + 1;
      PublishedLater(cfg, s, s.threads[tid], s1.threads[tid], tid, schedule, later);
    }
  }

  lemma CopyKeepsClaim<T>(cfg: Config, s: State<T>, tid: Tid)
    requires Shape(cfg, s) && AtFront(s, tid) && Left(s.threads[tid]) > 1
    ensures var s' := Next(cfg, Naturals, s, Step(tid));
            tid in s'.threads && SameClaim(s.threads[tid], s'.threads[tid])
  {
    assert ThreadShape(s.threads[tid]);
    CopyStepEffect(cfg, Naturals, s, tid);
  }

  ghost predicate Drained<T>(cfg: Config, s: State<T>, s': State<T>) {
    && Inv(cfg, s') && s'.sent == s.sent
    && s'.prod == Side(s.prod.head, s.prod.head) && s'.cons == Side(s.cons.head, s.cons.head)
  }

  ghost predicate OnlyClaimants<T>(s: State<T>, schedule: seq<Label<T>>) {
    forall i :: 0 <= i < |schedule| ==>
      schedule[i].Step? && schedule[i].tid in s.threads && s.threads[schedule[i].tid].pc.Copy?
  }

  // One more claim can be published by its own steps.
  lemma DrainOne<T>(cfg: Config, s: State<T>) returns (schedule: seq<Label<T>>, s': State<T>)
    requires Inv(cfg, s) && Pending(s, Producer) + Pending(s, Consumer) > 0
    ensures s' == Run(cfg, Naturals, s, schedule) && Inv(cfg, s') && OnlyClaimants(s, schedule)
    ensures s'.sent == s.sent && s'.prod.head == s.prod.head && s'.cons.head == s.cons.head
    ensures Pending(s', Producer) + Pending(s', Consumer) < Pending(s, Producer) + Pending(s, Consumer)
    ensures forall t :: t in s'.threads ==> t in s.threads && s'.threads[t] == s.threads[t]
  {
    var role := if Pending(s, Producer) > 0 then Producer else Consumer;
    var t := SomeoneCanPublish(cfg, s, role);
    assert ThreadShape(s.threads[t]);
    PublishFront(cfg, s, t);
    schedule := Steps<T>(t, Left(s.threads[t]));
    s' := Run(cfg, Naturals, s, schedule);
    RunKeepsInv(cfg, Naturals, s, schedule);
    OnlySteps<T>(t, |schedule|);
  }

  /** From every reachable state, the claims in flight alone can be brought to completion: there is a schedule, made
      of steps of calls that have claimed, after which both sides have published everything they claimed. */
  lemma {:induction false} Drain<T>(cfg: Config, s: State<T>) returns (schedule: seq<Label<T>>)
    requires Inv(cfg, s)
    ensures OnlyClaimants(s, schedule) && Drained(cfg, s, Run(cfg, Naturals, s, schedule))
    decreases Pending(s, Producer) + Pending(s, Consumer)
  {
    if Pending(s, Producer) + Pending(s, Consumer) == 0 {
      schedule := [];
    } else {
      var mine, s1 := DrainOne(cfg, s);
      var rest := Drain(cfg, s1);
      RunConcat(cfg, Naturals, s, mine, rest);
      schedule := mine + rest;
    }
  }

  lemma {:induction false} OnlySteps<T>(tid: Tid, n: nat)
    ensures forall i :: 0 <= i < n ==> Steps<T>(tid, n)[i] == Step(tid)
  {
    if n == 0 {
    } else {
      OnlySteps<T>(tid, n - 1);
    }
  }

  // ----- The copy steps are the copy macro.

  // The enqueue has written its first objects as the macro does, starting from the slots `before`.
  ghost predicate CopiedSoFar<T>(cfg: Config, s: State<T>, tid: Tid, call: Call<T>, head: nat, take: nat, i: nat, before: seq<T>) {
    && tid in s.threads && s.threads[tid].call == call && call.role.Producer?
    && s.threads[tid].pc.Copy? && s.threads[tid].pc.head == head && s.threads[tid].pc.take == take
    && |s.threads[tid].pc.moved| == i && i <= take <= |call.objs|
    && |before| == cfg.Size() && s.slots == StoreAll(cfg, before, head, call.objs[..i])
  }

  lemma CopyOnce<T>(cfg: Config, s: State<T>, tid: Tid, call: Call<T>, head: nat, take: nat, i: nat, before: seq<T>)
    requires Shape(cfg, s) && CopiedSoFar(cfg, s, tid, call, head, take, i, before) && i < take
    ensures CopiedSoFar(cfg, Next(cfg, Naturals, s, Step(tid)), tid, call, head, take, i + 1, before)
  {
    assert ThreadShape(s.threads[tid]);
    CopyStepEffect(cfg, Naturals, s, tid);
    assert call.objs[..i + 1][..i] == call.objs[..i];
  }

  /** The copy steps of an enqueue, taken in a row, write what RING_ENQUEUE_PTRS writes. */
  lemma {:induction false} UninterruptedCopy<T>(cfg: Config, s: State<T>, tid: Tid, call: Call<T>, head: nat, take: nat,
                                                i: nat, before: seq<T>)
    requires Shape(cfg, s) && CopiedSoFar(cfg, s, tid, call, head, take, i, before)
    ensures Run(cfg, Naturals, s, Steps(tid, take - i)).slots == StoreAll(cfg, before, head, call.objs[..take])
    decreases take - i
  {
    if i == take {
    } else {
      CopyOnce(cfg, s, tid, call, head, take, i, before);
      RunFirst(cfg, Naturals, s, Step(tid), Steps(tid, take - i - 1));
      UninterruptedCopy(cfg, Next(cfg, Naturals, s, Step(tid)), tid, call, head, take, i + 1, before);
    }
  }

  // The dequeue has read its first objects as the macro does.
  ghost predicate ReadSoFar<T>(cfg: Config, s: State<T>, tid: Tid, head: nat, take: nat, i: nat, slots: seq<T>) {
    && tid in s.threads && s.threads[tid].call.role.Consumer?
    && s.threads[tid].pc.Copy? && s.threads[tid].pc.head == head && s.threads[tid].pc.take == take
    && s.slots == slots && |slots| == cfg.Size() && i <= take && s.threads[tid].pc.moved == LoadAll(cfg, slots, head, i)
  }

  lemma ReadOnce<T>(cfg: Config, s: State<T>, tid: Tid, head: nat, take: nat, i: nat, slots: seq<T>)
    requires Shape(cfg, s) && ReadSoFar(cfg, s, tid, head, take, i, slots) && i < take
    ensures ReadSoFar(cfg, Next(cfg, Naturals, s, Step(tid)), tid, head, take, i + 1, slots)
  {
    assert ThreadShape(s.threads[tid]);
    CopyStepEffect(cfg, Naturals, s, tid);
  }

  /** The copy steps of a dequeue, taken in a row, read what RING_DEQUEUE_PTRS reads. */
  lemma {:induction false} UninterruptedRead<T>(cfg: Config, s: State<T>, tid: Tid, head: nat, take: nat, i: nat, slots: seq<T>)
    requires Shape(cfg, s) && ReadSoFar(cfg, s, tid, head, take, i, slots)
    ensures ReadSoFar(cfg, Run(cfg, Naturals, s, Steps(tid, take - i)), tid, head, take, take, slots)
    decreases take - i
  {
    if i == take {
    } else {
      ReadOnce(cfg, s, tid, head, take, i, slots);
      RunFirst(cfg, Naturals, s, Step(tid), Steps(tid, take - i - 1));
      UninterruptedRead(cfg, Next(cfg, Naturals, s, Step(tid)), tid, head, take, i + 1, slots);
    }
  }

  // ----- RING_Count and its relatives.

  // RING_Count on the two tails as they are at one instant.
  function Count<T>(cfg: Config, w: Arith, s: State<T>): nat {
    var count := Slot(cfg, Norm(w, s.prod.tail - s.cons.tail));
    if count > cfg.capacity then cfg.capacity else count
  }

  function FreeCount<T>(cfg: Config, w: Arith, s: State<T>): int {
    cfg.capacity - Count(cfg, w, s)
  }

  /** RING_Count is the number of objects in the ring exactly when they do not fill all `size` slots. RING_Init makes
      capacity equal to size, so a full ring of that kind counts 0: RING_Empty holds of it and RING_Full does not. */
  lemma CountExactIffNotFull<T>(cfg: Config, s: State<T>)
    requires Inv(cfg, s)
    ensures Count(cfg, Naturals, s) == |Live(cfg, s)| <==> |Live(cfg, s)| < cfg.Size()
    ensures |Live(cfg, s)| < cfg.Size() ==> FreeCount(cfg, Naturals, s) + |Live(cfg, s)| == cfg.capacity
    ensures |Live(cfg, s)| == cfg.Size() ==> Count(cfg, Naturals, s) == 0 && FreeCount(cfg, Naturals, s) == cfg.capacity
  {
    SlotMod(cfg, |Live(cfg, s)|);
    Remainder(|Live(cfg, s)|, cfg.Size());
  }
}
