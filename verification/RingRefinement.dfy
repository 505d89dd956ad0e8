/**
 The 32-bit program refines the program with unbounded counters: on every schedule in which no call sleeps while its
 head moves on by a whole lap of 2^32 positions, it makes the same moves and returns the same results as the program
 with `Wide` arithmetic; and if none sleeps for 2^32 - capacity positions, as the program with `Naturals`.
 */
module RingRefinement {
  import opened Bits
  import opened RingProtocol
  import opened RingInvariant
  import opened RingCopy
  import opened RingTheorems
  import RingCalls

  function WrapSide(side: Side): Side {
    Side(U32(side.head), U32(side.tail))
  }

  function WrapPc<T>(pc: Pc<T>): Pc<T> {
    match pc
    case LoadHead => LoadHead
    case LoadTail(head) => LoadTail(U32(head))
    case Swap(head, take, avail) => Swap(U32(head), take, avail)
    case Copy(head, take, avail, moved) => Copy(U32(head), take, avail, moved)
  }

  function WrapThread<T>(th: Thread<T>): Thread<T> {
    Thread(th.call, WrapPc(th.pc))
  }

  function WrapThreads<T>(threads: map<Tid, Thread<T>>): map<Tid, Thread<T>> {
    map t | t in threads :: WrapThread(threads[t])
  }

  // The state the 32-bit program is in when the counters of the unbounded program are those of s.
  function Wrap<T>(s: State<T>): State<T> {
    State(WrapSide(s.prod), WrapSide(s.cons), s.slots, WrapThreads(s.threads), s.sent, s.log)
  }

  // How far the head of a side has moved since the call loaded it.
  function Lag<T>(s: State<T>, th: Thread<T>): int {
    if th.pc.LoadTail? || th.pc.Swap? then SideOf(s, th.call.role).head - th.pc.head else 0
  }

  // Unbounded amounts agree with 32-bit ones only while a stale head leaves room for the capacity.
  function Margin(cfg: Config, w: Arith): nat {
    if w.Naturals? then cfg.capacity else 0
  }

  ghost predicate NoLap<T>(cfg: Config, w: Arith, s: State<T>) {
    forall t :: t in s.threads ==> Lag(s, s.threads[t]) + Margin(cfg, w) < WORD
  }

  ghost predicate NoLapRun<T>(cfg: Config, w: Arith, slots: seq<T>, schedule: seq<Label<T>>)
    requires |slots| == cfg.Size()
  {
    forall k :: 0 <= k <= |schedule| ==> NoLap(cfg, w, Run(cfg, w, Init(slots), schedule[..k]))
  }

  /** The wrapped difference is the true one exactly when the true one fits a word. */
  lemma WrappedDifference(a: int, b: int, c: int)
    requires c + a - b >= 0
    ensures Amount(Words, c + U32(a) - U32(b)) == Amount(Naturals, c + a - b) <==> c + a - b < WORD
    ensures Amount(Words, c + U32(a) - U32(b)) == Amount(Wide, c + a - b)
  {
    ModSub(a, b, c);
  }

  // Two counters less than a lap apart are equal when their words are.
  lemma SameWord(a: nat, b: nat)
    requires a <= b < a + WORD
    ensures U32(a) == U32(b) <==> a == b
  {
  }

  lemma WrapShape<T>(cfg: Config, s: State<T>)
    requires Shape(cfg, s)
    ensures Shape(cfg, Wrap(s))
  {
    forall t | t in Wrap(s).threads
      ensures ThreadShape(Wrap(s).threads[t])
    {
      assert ThreadShape(s.threads[t]);
    }
  }

  lemma WrapGoTo<T>(s: State<T>, tid: Tid, pc: Pc<T>)
    requires tid in s.threads
    ensures Wrap(GoTo(s, tid, pc)) == GoTo(Wrap(s), tid, WrapPc(pc))
  {
    assert Wrap(GoTo(s, tid, pc)).threads == GoTo(Wrap(s), tid, WrapPc(pc)).threads;
  }

  lemma WrapFinish<T>(s: State<T>, tid: Tid, r: Return<T>)
    ensures Wrap(Finish(s, tid, r)) == Finish(Wrap(s), tid, r)
  {
    assert Wrap(Finish(s, tid, r)).threads == Finish(Wrap(s), tid, r).threads;
  }

  ghost predicate Agrees<T>(cfg: Config, w: Arith, s: State<T>, l: Label<T>) {
    Shape(cfg, s) && Shape(cfg, Wrap(s)) && Next(cfg, Words, Wrap(s), l) == Wrap(Next(cfg, w, s, l))
  }

  lemma InvokeAgrees<T>(cfg: Config, w: Arith, s: State<T>, tid: Tid, call: Call<T>)
    requires w != Words
    requires Shape(cfg, s)
    ensures Agrees(cfg, w, s, Invoke(tid, call))
  {
    WrapShape(cfg, s);
    var k := Wrap(s);
    assert forall t :: t in s.threads ==> k.threads[t].call == s.threads[t].call;
    assert CanInvoke(s, tid, call) <==> CanInvoke(k, tid, call);
    assert Wrap(s.(threads := s.threads[tid := Thread(call, LoadHead)])).threads == k.threads[tid := Thread(call, LoadHead)];
  }

  // The true amount left, computed by a call at LoadTail.
  function TrueAvail<T>(cfg: Config, s: State<T>, tid: Tid): int
    requires tid in s.threads && s.threads[tid].pc.LoadTail?
  {
    var Thread(call, pc) := s.threads[tid];
    Slack(cfg, call.role) + Opposite(s, call.role).tail - pc.head
  }

  lemma AvailFits<T>(cfg: Config, w: Arith, s: State<T>, tid: Tid)
    requires Inv(cfg, s) && NoLap(cfg, w, s) && tid in s.threads && s.threads[tid].pc.LoadTail?
    ensures 0 <= TrueAvail(cfg, s, tid) && (w.Naturals? ==> TrueAvail(cfg, s, tid) < WORD)
  {
    assert OneThread(cfg, s, tid);
    assert Lag(s, s.threads[tid]) + Margin(cfg, w) < WORD;
  }

  lemma LoadTailAgrees<T>(cfg: Config, w: Arith, s: State<T>, tid: Tid)
    requires w != Words
    requires tid in s.threads && s.threads[tid].pc.LoadTail?
    requires 0 <= TrueAvail(cfg, s, tid) && (w.Naturals? ==> TrueAvail(cfg, s, tid) < WORD)
    ensures StepLoadTail(cfg, Words, Wrap(s), tid) == Wrap(StepLoadTail(cfg, w, s, tid))
  {
    var Thread(call, pc) := s.threads[tid];
    var avail := Amount(w, TrueAvail(cfg, s, tid));
    WrappedDifference(Opposite(s, call.role).tail, pc.head, Slack(cfg, call.role));
    var take := Grant(call.n, call.behavior, avail);
    if take == 0 {
      WrapFinish(s, tid, Return(call, [], avail));
    } else {
      WrapGoTo(s, tid, Swap(pc.head, take, avail));
    }
  }

  lemma SwapFits<T>(cfg: Config, w: Arith, s: State<T>, tid: Tid)
    requires Inv(cfg, s) && NoLap(cfg, w, s) && tid in s.threads && s.threads[tid].pc.Swap?
    ensures s.threads[tid].pc.head <= SideOf(s, s.threads[tid].call.role).head < s.threads[tid].pc.head + WORD
  {
    assert OneThread(cfg, s, tid);
    assert Lag(s, s.threads[tid]) + Margin(cfg, w) < WORD;
  }

  lemma WonSwapAgrees<T>(w: Arith, s: State<T>, tid: Tid)
    requires w != Words
    requires tid in s.threads && s.threads[tid].pc.Swap? && ThreadShape(s.threads[tid]) && ThreadShape(Wrap(s).threads[tid])
    requires s.threads[tid].call.single || SideOf(s, s.threads[tid].call.role).head == s.threads[tid].pc.head
    ensures StepSwap(Words, Wrap(s), tid) == Wrap(StepSwap(w, s, tid))
  {
    var Thread(call, pc) := s.threads[tid];
    ModAdd(pc.head, pc.take);
    var s1 := WithSide(s, call.role, SideOf(s, call.role).(head := pc.head + pc.take));
    var s2 := if call.role.Producer? then s1.(sent := s.sent + call.objs[..pc.take]) else s1;
    assert StepSwap(w, s, tid) == GoTo(s2, tid, Copy(pc.head, pc.take, pc.avail, []));
    WrapGoTo(s2, tid, Copy(pc.head, pc.take, pc.avail, []));
  }

  lemma LostSwapAgrees<T>(w: Arith, s: State<T>, tid: Tid)
    requires w != Words
    requires tid in s.threads && s.threads[tid].pc.Swap? && ThreadShape(s.threads[tid]) && ThreadShape(Wrap(s).threads[tid])
    requires !s.threads[tid].call.single
    requires s.threads[tid].pc.head < SideOf(s, s.threads[tid].call.role).head < s.threads[tid].pc.head + WORD
    ensures StepSwap(Words, Wrap(s), tid) == Wrap(StepSwap(w, s, tid))
    ensures var call := s.threads[tid].call;
            var back := if call.role.Producer? then LoadHead else LoadTail(U32(SideOf(s, call.role).head));
            StepSwap(Words, Wrap(s), tid).threads == Wrap(s).threads[tid := Thread(call, back)]
  {
    var Thread(call, pc) := s.threads[tid];
    var me := SideOf(s, call.role);
    SameWord(pc.head, me.head);
    if call.role.Producer? {
      WrapGoTo(s, tid, LoadHead);
    } else {
      WrapGoTo(s, tid, LoadTail(me.head));
    }
  }

  lemma SwapAgrees<T>(w: Arith, s: State<T>, tid: Tid)
    requires w != Words
    requires tid in s.threads && s.threads[tid].pc.Swap? && ThreadShape(s.threads[tid]) && ThreadShape(Wrap(s).threads[tid])
    requires s.threads[tid].pc.head <= SideOf(s, s.threads[tid].call.role).head < s.threads[tid].pc.head + WORD
    ensures StepSwap(Words, Wrap(s), tid) == Wrap(StepSwap(w, s, tid))
  {
    if s.threads[tid].call.single || SideOf(s, s.threads[tid].call.role).head == s.threads[tid].pc.head {
      WonSwapAgrees(w, s, tid);
    } else {
      LostSwapAgrees(w, s, tid);
    }
  }

  lemma SlotAgrees(cfg: Config, head: nat, i: nat)
    requires cfg.Valid()
    ensures Slot(cfg, Norm(Words, U32(head) + i)) == Slot(cfg, Norm(Naturals, head + i))
  {
    ModAdd(head, i);
    WrappedSlot(cfg, head + i);
  }

  lemma WriteAgrees<T>(cfg: Config, w: Arith, s: State<T>, tid: Tid)
    requires w != Words
    requires cfg.Valid() && Shape(cfg, s) && Shape(cfg, Wrap(s)) && Copying(s, tid) && s.threads[tid].call.role.Producer?
    ensures StepCopy(cfg, Words, Wrap(s), tid) == Wrap(StepCopy(cfg, w, s, tid))
  {
    var Thread(call, pc) := s.threads[tid];
    SlotAgrees(cfg, pc.head, |pc.moved|);
    var k := Slot(cfg, Norm(w, pc.head + |pc.moved|));
    assert ThreadShape(s.threads[tid]);
    var x := call.objs[|pc.moved|];
    var s1, next := s.(slots := s.slots[k := x]), pc.(moved := pc.moved + [x]);
    assert StepCopy(cfg, w, s, tid) == GoTo(s1, tid, next);
    assert StepCopy(cfg, Words, Wrap(s), tid) == GoTo(Wrap(s1), tid, WrapPc(next));
    WrapGoTo(s1, tid, next);
  }

  lemma ReadAgrees<T>(cfg: Config, w: Arith, s: State<T>, tid: Tid)
    requires w != Words
    requires cfg.Valid() && Shape(cfg, s) && Shape(cfg, Wrap(s)) && Copying(s, tid) && s.threads[tid].call.role.Consumer?
    ensures StepCopy(cfg, Words, Wrap(s), tid) == Wrap(StepCopy(cfg, w, s, tid))
  {
    var pc := s.threads[tid].pc;
    SlotAgrees(cfg, pc.head, |pc.moved|);
    var next := pc.(moved := pc.moved + [s.slots[Slot(cfg, Norm(w, pc.head + |pc.moved|))]]);
    assert StepCopy(cfg, w, s, tid) == GoTo(s, tid, next);
    assert StepCopy(cfg, Words, Wrap(s), tid) == GoTo(Wrap(s), tid, WrapPc(next));
    WrapGoTo(s, tid, next);
  }

  lemma CopyAgrees<T>(cfg: Config, w: Arith, s: State<T>, tid: Tid)
    requires w != Words
    requires cfg.Valid() && Shape(cfg, s) && Shape(cfg, Wrap(s)) && Copying(s, tid)
    ensures StepCopy(cfg, Words, Wrap(s), tid) == Wrap(StepCopy(cfg, w, s, tid))
  {
    if s.threads[tid].call.role.Producer? {
      WriteAgrees(cfg, w, s, tid);
    } else {
      ReadAgrees(cfg, w, s, tid);
    }
  }

  lemma PublishFits<T>(cfg: Config, s: State<T>, tid: Tid)
    requires Inv(cfg, s) && Copied(s, tid)
    ensures SideOf(s, s.threads[tid].call.role).tail <= s.threads[tid].pc.head
    ensures s.threads[tid].pc.head < SideOf(s, s.threads[tid].call.role).tail + WORD
  {
    assert OneThread(cfg, s, tid);
    Pow2Monotone(cfg.order, 31);
    Pow2_32();
  }

  lemma PublishAgrees<T>(w: Arith, s: State<T>, tid: Tid)
    requires w != Words
    requires Copied(s, tid) && ThreadShape(s.threads[tid]) && ThreadShape(Wrap(s).threads[tid])
    requires SideOf(s, s.threads[tid].call.role).tail <= s.threads[tid].pc.head
    requires s.threads[tid].pc.head < SideOf(s, s.threads[tid].call.role).tail + WORD
    ensures StepPublish(Words, Wrap(s), tid) == Wrap(StepPublish(w, s, tid))
  {
    var Thread(call, pc) := s.threads[tid];
    var me := SideOf(s, call.role);
    SameWord(me.tail, pc.head);
    if call.single || me.tail == pc.head {
      ModAdd(pc.head, pc.take);
      WrapFinish(WithSide(s, call.role, me.(tail := pc.head + pc.take)), tid,
                 Return(call, pc.moved, pc.avail - pc.take));
    }
  }

  lemma StepAgrees<T>(cfg: Config, w: Arith, s: State<T>, tid: Tid)
    requires w != Words
    requires Inv(cfg, s) && NoLap(cfg, w, s) && tid in s.threads && Shape(cfg, Wrap(s))
    ensures StepThread(cfg, Words, Wrap(s), tid) == Wrap(StepThread(cfg, w, s, tid))
  {
    assert ThreadShape(s.threads[tid]) && ThreadShape(Wrap(s).threads[tid]);
    match s.threads[tid].pc
    case LoadHead => WrapGoTo(s, tid, LoadTail(SideOf(s, s.threads[tid].call.role).head));
    case LoadTail(_) => AvailFits(cfg, w, s, tid); LoadTailAgrees(cfg, w, s, tid);
    case Swap(_, _, _) => SwapFits(cfg, w, s, tid); SwapAgrees(w, s, tid);
    case Copy(_, take, _, moved) =>
      if |moved| < take { CopyAgrees(cfg, w, s, tid); } else { PublishFits(cfg, s, tid); PublishAgrees(w, s, tid); }
  }

  /** One step of the 32-bit program is the same step of the unbounded one, seen through 32-bit words. */
  lemma NextAgrees<T>(cfg: Config, w: Arith, s: State<T>, l: Label<T>)
    requires w != Words
    requires Inv(cfg, s) && NoLap(cfg, w, s)
    ensures Agrees(cfg, w, s, l)
  {
    WrapShape(cfg, s);
    match l
    case Invoke(tid, call) => InvokeAgrees(cfg, w, s, tid, call);
    case Step(tid) =>
      if tid in s.threads {
        StepAgrees(cfg, w, s, tid);
      }
  }

  lemma {:induction false} RunAgrees<T>(cfg: Config, w: Arith, slots: seq<T>, schedule: seq<Label<T>>)
    requires w != Words
    requires cfg.Valid() && |slots| == cfg.Size() && NoLapRun(cfg, w, slots, schedule)
    ensures Run(cfg, Words, Init(slots), schedule) == Wrap(Run(cfg, w, Init(slots), schedule))
    decreases |schedule|
  {
    if schedule == [] {
    } else {
      var n := |schedule| - 1;
      forall k | 0 <= k <= n
        ensures NoLap(cfg, w, Run(cfg, w, Init(slots), schedule[..n][..k]))
      {
        assert schedule[..n][..k] == schedule[..k];
      }
      RunAgrees(cfg, w, slots, schedule[..n]);
      RunInv(cfg, w, slots, schedule[..n]);
      NextAgrees(cfg, w, Run(cfg, w, Init(slots), schedule[..n]), schedule[n]);
    }
  }

  // The objects received are a prefix of the objects given, the rest is in the slots behind them and at most `capacity`, and
  // every return obeys the FIXED or VARIABLE contract.
  ghost predicate FirstInFirstOut<T>(cfg: Config, s: State<T>)
    requires |s.slots| == cfg.Size()
  {
    var (given, got) := (Moved(s.log, Producer), Moved(s.log, Consumer));
    && got <= given && |given| - |got| <= cfg.capacity
    && given == got + LoadAll(cfg, s.slots, |got|, |given| - |got|)
    && forall i :: 0 <= i < |s.log| ==> ReturnOk(s.log[i])
  }

  lemma Delivered<T>(cfg: Config, s: State<T>)
    requires Inv(cfg, s)
    ensures FirstInFirstOut(cfg, s)
  {
    Conservation(cfg, s);
    assert |Moved(s.log, Producer)| == s.prod.tail && |Moved(s.log, Consumer)| == s.cons.tail;
  }

  /** The main theorem, about the 32-bit program and for every schedule without a lap: the objects received by finished
      dequeues are a prefix of the objects given to finished enqueues, the rest is what the ring holds, every return obeys the
      FIXED or VARIABLE contract, and every return answers a call that was made. */
  lemma FifoDelivery<T>(cfg: Config, slots: seq<T>, schedule: seq<Label<T>>)
    requires cfg.Valid() && |slots| == cfg.Size() && NoLapRun(cfg, Wide, slots, schedule)
    ensures FirstInFirstOut(cfg, Run(cfg, Words, Init(slots), schedule))
    ensures RingCalls.AllAnswered(cfg, Words, slots, schedule)
  {
    var s := Run(cfg, Wide, Init(slots), schedule);
    RunInv(cfg, Wide, slots, schedule);
    RunAgrees(cfg, Wide, slots, schedule);
    Delivered(cfg, s);
    WrapDelivers(cfg, s);
    RingCalls.AllReturnsAnswer(cfg, Words, slots, schedule);
  }

  // Only counters are wrapped.
  lemma WrapDelivers<T>(cfg: Config, s: State<T>)
    requires |s.slots| == cfg.Size()
    ensures FirstInFirstOut(cfg, Wrap(s)) == FirstInFirstOut(cfg, s)
  {
  }

  // ----- No deadlock of the 32-bit program.

  // s comes after s0 by steps of calls that have claimed: the heads stand still.
  ghost predicate Calm<T>(s0: State<T>, s: State<T>) {
    && s.prod.head == s0.prod.head && s.cons.head == s0.cons.head && s.sent == s0.sent
    && forall t :: t in s.threads ==>
         t in s0.threads && (if s0.threads[t].pc.Copy? then s.threads[t].pc.Copy? else s.threads[t] == s0.threads[t])
  }

  lemma CalmNoLap<T>(cfg: Config, s0: State<T>, s: State<T>)
    requires Calm(s0, s) && NoLap(cfg, Wide, s0) && cfg.Valid()
    ensures NoLap(cfg, Wide, s)
  {
    forall t | t in s.threads
      ensures Lag(s, s.threads[t]) + Margin(cfg, Wide) < WORD
    {
      assert Lag(s0, s0.threads[t]) + Margin(cfg, Wide) < WORD;
    }
  }

  lemma CalmStep<T>(cfg: Config, s0: State<T>, s: State<T>, tid: Tid)
    requires Inv(cfg, s) && Calm(s0, s) && tid in s0.threads && s0.threads[tid].pc.Copy?
    ensures Calm(s0, Next(cfg, Naturals, s, Step(tid)))
  {
    if tid in s.threads {
      assert ThreadShape(s.threads[tid]);
      if |s.threads[tid].pc.moved| < s.threads[tid].pc.take {
        CopyStepEffect(cfg, Naturals, s, tid);
      } else if Publishing(s, tid) {
        PublishStepEffect(cfg, Naturals, s, tid);
      }
    }
  }

  // Such a step computes no amount.
  lemma ClaimantsAgree<T>(cfg: Config, s: State<T>, tid: Tid)
    requires Shape(cfg, s) && (tid in s.threads ==> s.threads[tid].pc.Copy?)
    ensures Next(cfg, Wide, s, Step(tid)) == Next(cfg, Naturals, s, Step(tid))
  {
    assert tid in s.threads ==> ThreadShape(s.threads[tid]);
  }

  // While only calls that have claimed step, no lap can happen and the two programs stay together.
  lemma {:induction false} CalmRunAgrees<T>(cfg: Config, s: State<T>, schedule: seq<Label<T>>)
    requires Inv(cfg, s) && NoLap(cfg, Wide, s) && OnlyClaimants(s, schedule)
    ensures Calm(s, Run(cfg, Naturals, s, schedule)) && Shape(cfg, Wrap(s))
    ensures Run(cfg, Words, Wrap(s), schedule) == Wrap(Run(cfg, Naturals, s, schedule))
    decreases |schedule|
  {
    WrapShape(cfg, s);
    if schedule == [] {
    } else {
      var n := |schedule| - 1;
      CalmRunAgrees(cfg, s, schedule[..n]);
      RunKeepsInv(cfg, Naturals, s, schedule[..n]);
      var s1 := Run(cfg, Naturals, s, schedule[..n]);
      CalmNoLap(cfg, s, s1);
      NextAgrees(cfg, Wide, s1, schedule[n]);
      ClaimantsAgree(cfg, s1, schedule[n].tid);
      CalmStep(cfg, s, s1, schedule[n].tid);
    }
  }

  /** No deadlock of the 32-bit program: after every run without a lap, steps of the calls that have claimed lead to a state
      in which both sides have published everything they had claimed. */
  lemma DrainWords<T>(cfg: Config, slots: seq<T>, history: seq<Label<T>>) returns (schedule: seq<Label<T>>)
    requires cfg.Valid() && |slots| == cfg.Size() && NoLapRun(cfg, Wide, slots, history)
    ensures var k := Run(cfg, Words, Init(slots), history);
            var k' := Run(cfg, Words, k, schedule);
            && OnlyClaimants(k, schedule) && k'.sent == k.sent
            && k'.prod == Side(k.prod.head, k.prod.head) && k'.cons == Side(k.cons.head, k.cons.head)
  {
    var s := Run(cfg, Wide, Init(slots), history);
    RunInv(cfg, Wide, slots, history);
    RunAgrees(cfg, Wide, slots, history);
    assert NoLap(cfg, Wide, s) by {
      assert history[..|history|] == history;
    }
    schedule := Drain(cfg, s);
    CalmRunAgrees(cfg, s, schedule);
  }

  /** A refusal by 32-bit amounts is justified too, at the instant of the load, unless the call has slept for 2^32 - capacity
      positions. */
  lemma WideRefusalJustified<T>(cfg: Config, s: State<T>, tid: Tid)
    requires Inv(cfg, s) && tid in s.threads && s.threads[tid].pc.LoadTail? && s.threads[tid].call.n > 0
    requires tid !in Next(cfg, Wide, s, Step(tid)).threads && Lag(s, s.threads[tid]) + cfg.capacity < WORD
    ensures var call := s.threads[tid].call;
            && Room(cfg, s, call.role) < call.n
            && (call.behavior.Variable? ==> Room(cfg, s, call.role) == 0)
  {
    assert OneThread(cfg, s, tid);
    assert 0 <= TrueAvail(cfg, s, tid) < WORD;
  }

  /** RING_Count computed on the wrapped tails is RING_Count computed on the unbounded ones. */
  lemma WrappedCount<T>(cfg: Config, s: State<T>)
    requires Inv(cfg, s)
    ensures Count(cfg, Words, Wrap(s)) == Count(cfg, Naturals, s)
  {
    Pow2Monotone(cfg.order, 31);
    Pow2_32();
    WrappedDifference(s.prod.tail, s.cons.tail, 0);
  }
}
