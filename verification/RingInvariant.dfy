/**
 The invariant of the ring with unbounded counters, and its preservation by every step of every thread.
 */
module RingInvariant {
  import opened Bits
  import opened RingProtocol

  type Calls<T> = map<Tid, Thread<T>>

  // The call has claimed position p on the given side.
  predicate Claims<T>(th: Thread<T>, role: Role, p: int) {
    th.call.role == role && th.pc.Copy? && th.pc.head <= p < th.pc.head + th.pc.take
  }

  ghost predicate Claimed<T>(threads: Calls<T>, role: Role, p: int) {
    exists t :: t in threads && Claims(threads[t], role, p)
  }

  // An unpublished enqueue has already written position p.
  predicate Written<T>(th: Thread<T>, p: int) {
    th.call.role.Producer? && th.pc.Copy? && th.pc.head <= p < th.pc.head + |th.pc.moved|
  }

  // Entries the given side could still claim at this instant.
  function Room<T>(cfg: Config, s: State<T>, role: Role): int {
    Slack(cfg, role) + Opposite(s, role).tail - SideOf(s, role).head
  }

  ghost predicate Counters<T>(cfg: Config, s: State<T>) {
    && s.cons.tail <= s.cons.head <= s.prod.tail <= s.prod.head <= s.cons.tail + cfg.capacity
    && |s.sent| == s.prod.head
  }

  // The local variables of one call, against its side of the ring and the room there is.
  ghost predicate ThreadInv<T>(me: Side, room: int, sent: seq<T>, th: Thread<T>) {
    match th.pc
    case LoadHead => true
    case LoadTail(head) => head <= me.head && (th.call.single ==> head == me.head)
    case Swap(head, take, avail) =>
      && head <= me.head && (th.call.single ==> head == me.head)
      && (head == me.head ==> avail <= room)
    case Copy(head, take, avail, moved) =>
      && me.tail <= head && head + take <= me.head && |moved| <= take && me.head <= |sent|
      && moved == sent[head..head + |moved|]
      && (th.call.role.Producer? ==> take <= |th.call.objs| && sent[head..head + take] == th.call.objs[..take])
  }

  ghost predicate Threads<T>(cfg: Config, s: State<T>) {
    forall t :: t in s.threads ==>
      var role := s.threads[t].call.role;
      ThreadInv(SideOf(s, role), Room(cfg, s, role), s.sent, s.threads[t])
  }

  // A single-mode call is alone on its side.
  ghost predicate Exclusive<T>(threads: Calls<T>) {
    forall t, u :: (t in threads && u in threads && t != u && threads[t].call.role == threads[u].call.role) ==>
      !threads[t].call.single
  }

  // Claims of one side are disjoint ...
  ghost predicate Disjoint<T>(threads: Calls<T>) {
    forall t, u, role, p :: (t in threads && u in threads
                             && Claims(threads[t], role, p) && Claims(threads[u], role, p)) ==> t == u
  }

  // ... and leave no gap between tail and head.
  ghost predicate Covered<T>(threads: Calls<T>, role: Role, side: Side) {
    forall p :: side.tail <= p < side.head ==> Claimed(threads, role, p)
  }

  // Position p of the stream is in its slot.
  ghost predicate Stored<T>(cfg: Config, slots: seq<T>, sent: seq<T>, p: nat) {
    p < |sent| && |slots| == cfg.Size() && slots[Slot(cfg, p)] == sent[p]
  }

  ghost predicate Slots<T>(cfg: Config, s: State<T>) {
    && (forall p: nat :: s.cons.tail <= p < s.prod.tail ==> Stored(cfg, s.slots, s.sent, p))
    && (forall t, p: nat :: t in s.threads && Written(s.threads[t], p) ==> Stored(cfg, s.slots, s.sent, p))
  }

  // What one return may be.
  ghost predicate ReturnOk<T>(r: Return<T>) {
    && |r.items| <= r.call.n
    && (r.call.behavior.Fixed? ==> r.items == [] || |r.items| == r.call.n)
    && (r.call.behavior.Variable? && |r.items| < r.call.n ==> r.left == 0)
    && (r.call.role.Producer? ==> |r.items| <= |r.call.objs| && r.items == r.call.objs[..|r.items|])
  }

  ghost predicate Logged<T>(s: State<T>) {
    && s.cons.tail <= s.prod.tail <= |s.sent|
    && Moved(s.log, Producer) == s.sent[..s.prod.tail]
    && Moved(s.log, Consumer) == s.sent[..s.cons.tail]
    && forall i :: 0 <= i < |s.log| ==> ReturnOk(s.log[i])
  }

  ghost predicate Inv<T>(cfg: Config, s: State<T>) {
    && cfg.Valid()
    && Shape(cfg, s)
    && Counters(cfg, s)
    && Threads(cfg, s)
    && Exclusive(s.threads)
    && Disjoint(s.threads)
    && Covered(s.threads, Producer, s.prod)
    && Covered(s.threads, Consumer, s.cons)
    && Slots(cfg, s)
    && Logged(s)
  }

  lemma InitInv<T>(cfg: Config, slots: seq<T>)
    requires cfg.Valid() && |slots| == cfg.Size()
    ensures Inv(cfg, Init(slots))
  {
  }

  // ----- Steps that touch no shared word: they only move one call that claims nothing.

  ghost predicate SameMemory<T>(s: State<T>, s': State<T>) {
    s'.prod == s.prod && s'.cons == s.cons && s'.slots == s.slots && s'.sent == s.sent
  }

  ghost predicate OthersStay<T>(threads: Calls<T>, threads': Calls<T>, tid: Tid) {
    forall t :: t != tid ==> (t in threads <==> t in threads') && (t in threads ==> threads'[t] == threads[t])
  }

  ghost predicate NoClaim<T>(threads: Calls<T>, tid: Tid) {
    tid in threads ==> !threads[tid].pc.Copy?
  }

  lemma ClaimedStays<T>(threads: Calls<T>, threads': Calls<T>, tid: Tid, role: Role, side: Side)
    requires OthersStay(threads, threads', tid) && NoClaim(threads, tid)
    requires Covered(threads, role, side)
    ensures Covered(threads', role, side)
  {
    forall p | side.tail <= p < side.head
      ensures Claimed(threads', role, p)
    {
      assert Claimed(threads, role, p);
      var t :| t in threads && Claims(threads[t], role, p);
      assert t in threads' && Claims(threads'[t], role, p);
    }
  }

  lemma QuietClaims<T>(cfg: Config, s: State<T>, s': State<T>, tid: Tid)
    requires Inv(cfg, s) && SameMemory(s, s') && OthersStay(s.threads, s'.threads, tid)
    requires NoClaim(s.threads, tid) && NoClaim(s'.threads, tid)
    ensures Disjoint(s'.threads)
    ensures Covered(s'.threads, Producer, s'.prod) && Covered(s'.threads, Consumer, s'.cons)
    ensures Slots(cfg, s')
  {
    ClaimedStays(s.threads, s'.threads, tid, Producer, s.prod);
    ClaimedStays(s.threads, s'.threads, tid, Consumer, s.cons);
  }

  ghost predicate OneThread<T>(cfg: Config, s: State<T>, tid: Tid) {
    tid in s.threads ==>
      var role := s.threads[tid].call.role;
      ThreadInv(SideOf(s, role), Room(cfg, s, role), s.sent, s.threads[tid])
  }

  // A call keeps its part of the invariant while its side and the stream stay and its room does not shrink.
  lemma OthersKeepInv<T>(cfg: Config, s: State<T>, s': State<T>, tid: Tid)
    requires Threads(cfg, s) && OthersStay(s.threads, s'.threads, tid) && OneThread(cfg, s', tid)
    requires s'.prod == s.prod && s'.cons == s.cons && s'.sent == s.sent
    ensures Threads(cfg, s')
  {
  }

  lemma QuietStep<T>(cfg: Config, s: State<T>, s': State<T>, tid: Tid)
    requires Inv(cfg, s) && SameMemory(s, s') && OthersStay(s.threads, s'.threads, tid)
    requires NoClaim(s.threads, tid) && NoClaim(s'.threads, tid)
    requires Shape(cfg, s') && OneThread(cfg, s', tid) && Exclusive(s'.threads) && Logged(s')
    ensures Inv(cfg, s')
  {
    QuietClaims(cfg, s, s', tid);
    OthersKeepInv(cfg, s, s', tid);
  }

  lemma InvokeInv<T>(cfg: Config, w: Arith, s: State<T>, tid: Tid, call: Call<T>)
    requires w != Words
    requires Inv(cfg, s) && CanInvoke(s, tid, call)
    ensures Inv(cfg, Next(cfg, w, s, Invoke(tid, call)))
  {
    QuietStep(cfg, s, Next(cfg, w, s, Invoke(tid, call)), tid);
  }

  lemma LoadHeadInv<T>(cfg: Config, w: Arith, s: State<T>, tid: Tid)
    requires w != Words
    requires Inv(cfg, s) && tid in s.threads && s.threads[tid].pc.LoadHead?
    ensures Inv(cfg, Next(cfg, w, s, Step(tid)))
  {
    QuietStep(cfg, s, Next(cfg, w, s, Step(tid)), tid);
  }

  lemma GoToFrame<T>(s: State<T>, tid: Tid, pc: Pc<T>)
    requires tid in s.threads && Exclusive(s.threads)
    ensures OthersStay(s.threads, GoTo(s, tid, pc).threads, tid) && Exclusive(GoTo(s, tid, pc).threads)
  {
  }

  lemma FinishFrame<T>(s: State<T>, tid: Tid, r: Return<T>)
    requires tid in s.threads && Exclusive(s.threads)
    ensures OthersStay(s.threads, Finish(s, tid, r).threads, tid) && Exclusive(Finish(s, tid, r).threads)
  {
  }

  lemma EmptyReturn<T>(s: State<T>, s': State<T>, r: Return<T>)
    requires Logged(s) && SameMemory(s, s') && s'.log == s.log + [r] && r.items == [] && ReturnOk(r)
    ensures Logged(s')
  {
    MovedAppend(s.log, r, Producer);
    MovedAppend(s.log, r, Consumer);
  }

  lemma LoadTailAvail<T>(cfg: Config, w: Arith, s: State<T>, tid: Tid)
    requires w != Words
    requires Shape(cfg, s) && Counters(cfg, s) && OneThread(cfg, s, tid)
    requires tid in s.threads && s.threads[tid].pc.LoadTail?
    ensures OneThread(cfg, Next(cfg, w, s, Step(tid)), tid)
  {
  }

  // The value loaded from the opposite tail is a lower bound of what it is later.
  lemma LoadTailInv<T>(cfg: Config, w: Arith, s: State<T>, tid: Tid)
    requires w != Words
    requires Inv(cfg, s) && tid in s.threads && s.threads[tid].pc.LoadTail?
    ensures Inv(cfg, Next(cfg, w, s, Step(tid)))
  {
    var s' := Next(cfg, w, s, Step(tid));
    LoadTailAvail(cfg, w, s, tid);
    if tid in s'.threads {
      GoToFrame(s, tid, s'.threads[tid].pc);
    } else {
      FinishFrame(s, tid, s'.log[|s.log|]);
      EmptyReturn(s, s', s'.log[|s.log|]);
    }
    QuietStep(cfg, s, s', tid);
  }

  lemma LostSwapInv<T>(cfg: Config, w: Arith, s: State<T>, tid: Tid)
    requires w != Words
    requires Inv(cfg, s) && tid in s.threads && s.threads[tid].pc.Swap?
    requires !s.threads[tid].call.single && SideOf(s, s.threads[tid].call.role).head != s.threads[tid].pc.head
    ensures Inv(cfg, Next(cfg, w, s, Step(tid)))
  {
    var s' := Next(cfg, w, s, Step(tid));
    GoToFrame(s, tid, s'.threads[tid].pc);
    QuietStep(cfg, s, s', tid);
  }

  // ----- Winning the head: a new claim on top of all others.

  ghost predicate WonSwap<T>(cfg: Config, s: State<T>, tid: Tid) {
    && Inv(cfg, s) && tid in s.threads && s.threads[tid].pc.Swap?
    && (s.threads[tid].call.single || SideOf(s, s.threads[tid].call.role).head == s.threads[tid].pc.head)
  }

  /** The heart of the protocol: when the store or the compare-and-swap goes through, the amount computed from an
      earlier load of the opposite tail is really there. */
  lemma WonSwapHasRoom<T>(cfg: Config, s: State<T>, tid: Tid)
    requires WonSwap(cfg, s, tid)
    ensures var th := s.threads[tid];
            th.pc.head == SideOf(s, th.call.role).head && th.pc.take <= th.pc.avail <= Room(cfg, s, th.call.role)
  {
    assert ThreadShape(s.threads[tid]);
    var role := s.threads[tid].call.role;
    assert ThreadInv(SideOf(s, role), Room(cfg, s, role), s.sent, s.threads[tid]);
  }

  // What a won swap changes.
  ghost predicate ClaimEffect<T>(s: State<T>, s': State<T>, tid: Tid) {
    && tid in s.threads && s.threads[tid].pc.Swap? && ThreadShape(s.threads[tid])
    && var Thread(call, pc) := s.threads[tid];
       var me := SideOf(s, call.role);
       && SideOf(s', call.role) == Side(me.head + pc.take, me.tail)
       && Opposite(s', call.role) == Opposite(s, call.role)
       && s'.slots == s.slots && s'.log == s.log
       && s'.sent == s.sent + (if call.role.Producer? then call.objs[..pc.take] else [])
       && s'.threads == s.threads[tid := Thread(call, Copy(me.head, pc.take, pc.avail, []))]
  }

  lemma WonSwapEffect<T>(cfg: Config, w: Arith, s: State<T>, tid: Tid)
    requires w != Words
    requires WonSwap(cfg, s, tid)
    ensures ClaimEffect(s, Next(cfg, w, s, Step(tid)), tid)
  {
    WonSwapHasRoom(cfg, s, tid);
    assert ThreadShape(s.threads[tid]);
  }

  lemma PrefixSlice<T>(a: seq<T>, b: seq<T>, i: nat, j: nat)
    requires a <= b && i <= j <= |a|
    ensures a[i..j] == b[i..j]
  {
  }

  // A call that is not in single mode survives another claim on its side ...
  lemma AfterClaimSameSide<T>(me: Side, me': Side, room: int, room': int, sent: seq<T>, sent': seq<T>, th: Thread<T>)
    requires ThreadInv(me, room, sent, th) && !th.call.single
    requires me'.tail == me.tail && me.head < me'.head <= |sent'| && sent <= sent'
    ensures ThreadInv(me', room', sent', th)
  {
    if th.pc.Copy? {
      PrefixSlice(sent, sent', th.pc.head, th.pc.head + |th.pc.moved|);
      PrefixSlice(sent, sent', th.pc.head, th.pc.head + th.pc.take);
    }
  }

  // ... and any call survives a claim or a publication on the other side.
  lemma AfterOppositeStep<T>(me: Side, room: int, room': int, sent: seq<T>, sent': seq<T>, th: Thread<T>)
    requires ThreadInv(me, room, sent, th)
    requires room <= room' && sent <= sent'
    ensures ThreadInv(me, room', sent', th)
  {
    if th.pc.Copy? {
      PrefixSlice(sent, sent', th.pc.head, th.pc.head + |th.pc.moved|);
      PrefixSlice(sent, sent', th.pc.head, th.pc.head + th.pc.take);
    }
  }

  lemma ClaimThreads<T>(cfg: Config, s: State<T>, s': State<T>, tid: Tid)
    requires ClaimEffect(s, s', tid)
    requires Counters(cfg, s) && Counters(cfg, s') && Threads(cfg, s) && Exclusive(s.threads)
    ensures Threads(cfg, s')
  {
    assert s.sent <= s'.sent;
    forall t | t in s'.threads
      ensures var role := s'.threads[t].call.role;
              ThreadInv(SideOf(s', role), Room(cfg, s', role), s'.sent, s'.threads[t])
    {
      var role := s'.threads[t].call.role;
      if t != tid && role == s.threads[tid].call.role {
        AfterClaimSameSide(SideOf(s, role), SideOf(s', role), Room(cfg, s, role), Room(cfg, s', role),
                           s.sent, s'.sent, s.threads[t]);
      } else if t != tid {
        AfterOppositeStep(SideOf(s, role), Room(cfg, s, role), Room(cfg, s', role), s.sent, s'.sent, s.threads[t]);
      }
    }
  }

  lemma ClaimsBelowHead<T>(cfg: Config, s: State<T>)
    requires Threads(cfg, s)
    ensures forall t, role, p :: t in s.threads && Claims(s.threads[t], role, p) ==>
                                   SideOf(s, role).tail <= p < SideOf(s, role).head
  {
  }

  lemma ClaimDisjoint<T>(cfg: Config, s: State<T>, s': State<T>, tid: Tid)
    requires ClaimEffect(s, s', tid) && Threads(cfg, s) && Disjoint(s.threads)
    ensures Disjoint(s'.threads)
  {
    ClaimsBelowHead(cfg, s);
  }

  lemma ClaimCovered<T>(s: State<T>, s': State<T>, tid: Tid, role: Role)
    requires ClaimEffect(s, s', tid) && Covered(s.threads, role, SideOf(s, role))
    ensures Covered(s'.threads, role, SideOf(s', role))
  {
    ClaimedStays(s.threads, s'.threads, tid, role, SideOf(s, role));
    forall p | SideOf(s, role).head <= p < SideOf(s', role).head
      ensures Claimed(s'.threads, role, p)
    {
      assert Claims(s'.threads[tid], role, p);
    }
  }

  lemma ClaimSlots<T>(cfg: Config, s: State<T>, s': State<T>, tid: Tid)
    requires ClaimEffect(s, s', tid) && Slots(cfg, s)
    ensures Slots(cfg, s')
  {
    forall p: nat | s.cons.tail <= p < s.prod.tail
      ensures Stored(cfg, s'.slots, s'.sent, p)
    {
      assert Stored(cfg, s.slots, s.sent, p);
    }
    forall t, p: nat | t in s'.threads && Written(s'.threads[t], p)
      ensures Stored(cfg, s'.slots, s'.sent, p)
    {
      assert Written(s.threads[t], p) && Stored(cfg, s.slots, s.sent, p);
    }
  }

  lemma ClaimLogged<T>(s: State<T>, s': State<T>, tid: Tid)
    requires ClaimEffect(s, s', tid) && Logged(s)
    ensures Logged(s')
  {
    assert s'.sent[..s.prod.tail] == s.sent[..s.prod.tail];
    assert s'.sent[..s.cons.tail] == s.sent[..s.cons.tail];
  }

  lemma WonSwapInv<T>(cfg: Config, w: Arith, s: State<T>, tid: Tid)
    requires w != Words
    requires WonSwap(cfg, s, tid)
    ensures Inv(cfg, Next(cfg, w, s, Step(tid)))
  {
    var s' := Next(cfg, w, s, Step(tid));
    WonSwapEffect(cfg, w, s, tid);
    assert Counters(cfg, s') by { WonSwapHasRoom(cfg, s, tid); }
    assert Threads(cfg, s') by { ClaimThreads(cfg, s, s', tid); }
    assert Exclusive(s'.threads) by { GoToFrame(s, tid, s'.threads[tid].pc); }
    assert Disjoint(s'.threads) by { ClaimDisjoint(cfg, s, s', tid); }
    assert Covered(s'.threads, Producer, s'.prod) by { ClaimCovered(s, s', tid, Producer); }
    assert Covered(s'.threads, Consumer, s'.cons) by { ClaimCovered(s, s', tid, Consumer); }
    assert Slots(cfg, s') by { ClaimSlots(cfg, s, s', tid); }
    assert Logged(s') by { ClaimLogged(s, s', tid); }
  }

  // ----- Copying one object.

  ghost predicate Copying<T>(s: State<T>, tid: Tid) {
    && tid in s.threads && ThreadShape(s.threads[tid])
    && s.threads[tid].pc.Copy? && |s.threads[tid].pc.moved| < s.threads[tid].pc.take
  }

  // The position whose slot the next copy step of the call accesses.
  function CopyPosition<T>(th: Thread<T>): nat
    requires th.pc.Copy?
  {
    th.pc.head + |th.pc.moved|
  }

  ghost predicate CopyEffect<T>(cfg: Config, s: State<T>, s': State<T>, tid: Tid) {
    && Copying(s, tid) && |s.slots| == cfg.Size()
    && s'.prod == s.prod && s'.cons == s.cons && s'.sent == s.sent && s'.log == s.log
    && var Thread(call, pc) := s.threads[tid];
       var k := Slot(cfg, CopyPosition(s.threads[tid]));
       var x := if call.role.Producer? then call.objs[|pc.moved|] else s.slots[k];
       && s'.slots == (if call.role.Producer? then s.slots[k := x] else s.slots)
       && s'.threads == s.threads[tid := Thread(call, pc.(moved := pc.moved + [x]))]
  }

  lemma CopyStepEffect<T>(cfg: Config, w: Arith, s: State<T>, tid: Tid)
    requires w != Words
    requires Shape(cfg, s) && Copying(s, tid)
    ensures CopyEffect(cfg, s, Next(cfg, w, s, Step(tid)), tid)
  {
  }

  // The object moved is the one the stream has at that position.
  lemma CopyMovesStream<T>(cfg: Config, s: State<T>, s': State<T>, tid: Tid)
    requires CopyEffect(cfg, s, s', tid) && Counters(cfg, s) && OneThread(cfg, s, tid) && Slots(cfg, s)
    ensures OneThread(cfg, s', tid)
    ensures var p := CopyPosition(s.threads[tid]);
            p < |s.sent| && s'.threads[tid].pc.moved == s.threads[tid].pc.moved + [s.sent[p]]
  {
    var Thread(call, pc) := s.threads[tid];
    var p := CopyPosition(s.threads[tid]);
    if call.role.Consumer? {
      assert Stored(cfg, s.slots, s.sent, p);
    } else {
      assert s.sent[p] == s.sent[pc.head..pc.head + pc.take][|pc.moved|];
    }
    assert s.sent[pc.head..p + 1] == s.sent[pc.head..p] + [s.sent[p]];
  }

  lemma SameClaims<T>(threads: Calls<T>, threads': Calls<T>, tid: Tid, role: Role, side: Side)
    requires OthersStay(threads, threads', tid) && tid in threads && tid in threads'
    requires forall r, p :: Claims(threads[tid], r, p) <==> Claims(threads'[tid], r, p)
    requires Disjoint(threads) && Covered(threads, role, side)
    ensures Disjoint(threads') && Covered(threads', role, side)
  {
    forall p | side.tail <= p < side.head
      ensures Claimed(threads', role, p)
    {
      assert Claimed(threads, role, p);
      var t :| t in threads && Claims(threads[t], role, p);
      assert t in threads' && Claims(threads'[t], role, p);
    }
  }

  // Writing position q leaves every other position of the same lap in its slot.
  lemma WriteKeeps<T>(cfg: Config, slots: seq<T>, sent: seq<T>, q: nat, x: T, p: nat)
    requires |slots| == cfg.Size() && Stored(cfg, slots, sent, p)
    requires p < q < p + cfg.Size() || q < p < q + cfg.Size()
    ensures Stored(cfg, slots[Slot(cfg, q) := x], sent, p)
  {
    if p < q {
      SlotsDiffer(cfg, p, q);
    } else {
      SlotsDiffer(cfg, q, p);
    }
  }

  // What a producer writes is the stream at a position nobody else has written and no consumer still needs.
  lemma ProduceSlots<T>(cfg: Config, s: State<T>, s': State<T>, tid: Tid)
    requires CopyEffect(cfg, s, s', tid) && s.threads[tid].call.role.Producer?
    requires cfg.Valid() && Counters(cfg, s) && Threads(cfg, s) && Disjoint(s.threads) && Slots(cfg, s)
    ensures Slots(cfg, s')
  {
    CopyMovesStream(cfg, s, s', tid);
    var q := CopyPosition(s.threads[tid]);
    var x := s.threads[tid].call.objs[|s.threads[tid].pc.moved|];
    assert x == s.sent[q];
    forall p: nat | s.cons.tail <= p < s.prod.tail
      ensures Stored(cfg, s'.slots, s'.sent, p)
    {
      WriteKeeps(cfg, s.slots, s.sent, q, x, p);
    }
    forall t, p: nat | t in s'.threads && Written(s'.threads[t], p)
      ensures Stored(cfg, s'.slots, s'.sent, p)
    {
      if p != q {
        assert Written(s.threads[t], p);
        WriteKeeps(cfg, s.slots, s.sent, q, x, p);
      }
    }
  }

  lemma CopySlots<T>(cfg: Config, s: State<T>, s': State<T>, tid: Tid)
    requires CopyEffect(cfg, s, s', tid)
    requires cfg.Valid() && Counters(cfg, s) && Threads(cfg, s) && Disjoint(s.threads) && Slots(cfg, s)
    ensures Slots(cfg, s')
  {
    if s.threads[tid].call.role.Producer? {
      ProduceSlots(cfg, s, s', tid);
    }
  }

  lemma CopyInv<T>(cfg: Config, w: Arith, s: State<T>, tid: Tid)
    requires w != Words
    requires Inv(cfg, s) && Copying(s, tid)
    ensures Inv(cfg, Next(cfg, w, s, Step(tid)))
  {
    var s' := Next(cfg, w, s, Step(tid));
    CopyStepEffect(cfg, w, s, tid);
    assert Exclusive(s'.threads) && OthersStay(s.threads, s'.threads, tid) by {
      GoToFrame(s, tid, s'.threads[tid].pc);
    }
    assert Threads(cfg, s') by {
      CopyMovesStream(cfg, s, s', tid);
      OthersKeepInv(cfg, s, s', tid);
    }
    assert Disjoint(s'.threads) && Covered(s'.threads, Producer, s'.prod) by {
      SameClaims(s.threads, s'.threads, tid, Producer, s.prod);
    }
    assert Covered(s'.threads, Consumer, s'.cons) by {
      SameClaims(s.threads, s'.threads, tid, Consumer, s.cons);
    }
    assert Slots(cfg, s') by { CopySlots(cfg, s, s', tid); }
  }

  // ----- Publication: the claim at the tail leaves the ring's in-flight window.

  ghost predicate Copied<T>(s: State<T>, tid: Tid) {
    && tid in s.threads && ThreadShape(s.threads[tid])
    && s.threads[tid].pc.Copy? && |s.threads[tid].pc.moved| == s.threads[tid].pc.take
  }

  ghost predicate Publishing<T>(s: State<T>, tid: Tid) {
    && Copied(s, tid)
    && (s.threads[tid].call.single || SideOf(s, s.threads[tid].call.role).tail == s.threads[tid].pc.head)
  }

  // Even the unconditional store of single mode publishes in order.
  lemma PublishesInOrder<T>(cfg: Config, s: State<T>, tid: Tid)
    requires Inv(cfg, s) && Publishing(s, tid)
    ensures SideOf(s, s.threads[tid].call.role).tail == s.threads[tid].pc.head
  {
    var th := s.threads[tid];
    var me := SideOf(s, th.call.role);
    assert OneThread(cfg, s, tid);
    assert Covered(s.threads, th.call.role, me);
    assert Claimed(s.threads, th.call.role, me.tail);
    var t :| t in s.threads && Claims(s.threads[t], th.call.role, me.tail);
    assert t != tid ==> !th.call.single;
  }

  ghost predicate PublishEffect<T>(s: State<T>, s': State<T>, tid: Tid) {
    && Copied(s, tid)
    && var Thread(call, pc) := s.threads[tid];
       var me := SideOf(s, call.role);
       && me.tail == pc.head
       && SideOf(s', call.role) == Side(me.head, me.tail + pc.take)
       && Opposite(s', call.role) == Opposite(s, call.role)
       && s'.slots == s.slots && s'.sent == s.sent
       && s'.log == s.log + [Return(call, pc.moved, pc.avail - pc.take)]
       && s'.threads == s.threads - {tid}
  }

  lemma PublishStepEffect<T>(cfg: Config, w: Arith, s: State<T>, tid: Tid)
    requires w != Words
    requires Inv(cfg, s) && Publishing(s, tid)
    ensures PublishEffect(s, Next(cfg, w, s, Step(tid)), tid)
  {
    PublishesInOrder(cfg, s, tid);
  }

  lemma PublishThreads<T>(cfg: Config, s: State<T>, s': State<T>, tid: Tid)
    requires PublishEffect(s, s', tid) && Shape(cfg, s) && Threads(cfg, s) && Disjoint(s.threads)
    ensures Threads(cfg, s')
  {
    forall t | t in s'.threads
      ensures var role := s'.threads[t].call.role;
              ThreadInv(SideOf(s', role), Room(cfg, s', role), s'.sent, s'.threads[t])
    {
      var th := s.threads[t];
      var role := th.call.role;
      assert ThreadInv(SideOf(s, role), Room(cfg, s, role), s.sent, th);
      if role != s.threads[tid].call.role {
        AfterOppositeStep(SideOf(s, role), Room(cfg, s, role), Room(cfg, s', role), s.sent, s'.sent, th);
      } else if th.pc.Copy? {
        assert ThreadShape(th);
        assert Claims(th, role, th.pc.head);
        assert !Claims(s.threads[tid], role, th.pc.head);
      }
    }
  }

  lemma PublishCovered<T>(s: State<T>, s': State<T>, tid: Tid, role: Role)
    requires PublishEffect(s, s', tid) && Covered(s.threads, role, SideOf(s, role))
    ensures Covered(s'.threads, role, SideOf(s', role))
  {
    forall p | SideOf(s', role).tail <= p < SideOf(s', role).head
      ensures Claimed(s'.threads, role, p)
    {
      assert Claimed(s.threads, role, p);
      var t :| t in s.threads && Claims(s.threads[t], role, p);
      assert t in s'.threads && Claims(s'.threads[t], role, p);
    }
  }

  lemma PublishSlots<T>(cfg: Config, s: State<T>, s': State<T>, tid: Tid)
    requires PublishEffect(s, s', tid) && Slots(cfg, s)
    ensures Slots(cfg, s')
  {
    forall p: nat | s'.cons.tail <= p < s'.prod.tail
      ensures Stored(cfg, s'.slots, s'.sent, p)
    {
      assert p < s.prod.tail || Written(s.threads[tid], p);
    }
  }

  lemma PublishReturn<T>(s: State<T>, tid: Tid, room: int)
    requires Copied(s, tid)
    requires ThreadInv(SideOf(s, s.threads[tid].call.role), room, s.sent, s.threads[tid])
    ensures var Thread(call, pc) := s.threads[tid]; ReturnOk(Return(call, pc.moved, pc.avail - pc.take))
  {
  }

  lemma PublishLogged<T>(cfg: Config, s: State<T>, s': State<T>, tid: Tid)
    requires PublishEffect(s, s', tid) && Counters(cfg, s) && OneThread(cfg, s, tid) && Logged(s)
    ensures Logged(s')
  {
    var r := s'.log[|s.log|];
    var Thread(call, pc) := s.threads[tid];
    PublishReturn(s, tid, Room(cfg, s, call.role));
    assert Moved(s'.log, Producer) == s'.sent[..s'.prod.tail] && Moved(s'.log, Consumer) == s'.sent[..s'.cons.tail] by {
      MovedAppend(s.log, r, Producer);
      MovedAppend(s.log, r, Consumer);
      assert s.sent[..pc.head + pc.take] == s.sent[..pc.head] + s.sent[pc.head..pc.head + pc.take];
    }
  }

  lemma PublishInv<T>(cfg: Config, w: Arith, s: State<T>, tid: Tid)
    requires w != Words
    requires Inv(cfg, s) && Publishing(s, tid)
    ensures Inv(cfg, Next(cfg, w, s, Step(tid)))
  {
    var s' := Next(cfg, w, s, Step(tid));
    PublishStepEffect(cfg, w, s, tid);
    assert OneThread(cfg, s, tid);
    assert Threads(cfg, s') by { PublishThreads(cfg, s, s', tid); }
    assert Exclusive(s'.threads) by { FinishFrame(s, tid, s'.log[|s.log|]); }
    assert Covered(s'.threads, Producer, s'.prod) by { PublishCovered(s, s', tid, Producer); }
    assert Covered(s'.threads, Consumer, s'.cons) by { PublishCovered(s, s', tid, Consumer); }
    assert Slots(cfg, s') by { PublishSlots(cfg, s, s', tid); }
    assert Logged(s') by { PublishLogged(cfg, s, s', tid); }
  }

  /** Every step of every thread preserves the invariant. */
  lemma NextInv<T>(cfg: Config, w: Arith, s: State<T>, l: Label<T>)
    requires w != Words
    requires Inv(cfg, s)
    ensures Inv(cfg, Next(cfg, w, s, l))
  {
    match l
    case Invoke(tid, call) =>
      if CanInvoke(s, tid, call) {
        InvokeInv(cfg, w, s, tid, call);
      }
    case Step(tid) =>
      if tid in s.threads {
        var Thread(call, pc) := s.threads[tid];
        assert ThreadShape(s.threads[tid]);
        match pc
        case LoadHead => LoadHeadInv(cfg, w, s, tid);
        case LoadTail(_) => LoadTailInv(cfg, w, s, tid);
        case Swap(_, _, _) =>
          if WonSwap(cfg, s, tid) {
            WonSwapInv(cfg, w, s, tid);
          } else {
            LostSwapInv(cfg, w, s, tid);
          }
        case Copy(_, take, _, moved) =>
          if |moved| < take {
            CopyInv(cfg, w, s, tid);
          } else if Publishing(s, tid) {
            PublishInv(cfg, w, s, tid);
          }
      }
  }

  // So does every run from a state that satisfies it.
  lemma {:induction false} RunKeepsInv<T>(cfg: Config, w: Arith, s: State<T>, schedule: seq<Label<T>>)
    requires w != Words
    requires Inv(cfg, s)
    ensures Inv(cfg, Run(cfg, w, s, schedule))
    decreases |schedule|
  {
    if schedule == [] {
    } else {
      var n := |schedule| - 1;
      RunKeepsInv(cfg, w, s, schedule[..n]);
      NextInv(cfg, w, Run(cfg, w, s, schedule[..n]), schedule[n]);
    }
  }

  /** Safety over whole runs: every schedule from a fresh ring keeps the invariant. */
  lemma RunInv<T>(cfg: Config, w: Arith, slots: seq<T>, schedule: seq<Label<T>>)
    requires w != Words
    requires cfg.Valid() && |slots| == cfg.Size()
    ensures Inv(cfg, Run(cfg, w, Init(slots), schedule))
  {
    InitInv(cfg, slots);
    RunKeepsInv(cfg, w, Init(slots), schedule);
  }
}
