/**
 The multi-producer multi-consumer ring as an interleaved step system.

 Any number of threads call RING_DoEnqueue and RING_DoDequeue. Each step of a thread is one access to shared
 memory: a load, a compare-and-swap, the copy of one object, or a store of a tail. A schedule is a sequence of
 labels, and every schedule is a run.

 The machine is parameterised by its arithmetic: with `Words` it is the C program with its 32-bit `head` and `tail`, with
 `Naturals` the same program with unbounded counters. With `Wide` the counters are unbounded, and the amounts computed
 from them are still cut to 32 bits.
 */
module RingProtocol {
  import opened Bits

  type Tid = nat

  datatype Role = Producer | Consumer

  datatype Behavior = Fixed | Variable

  // The arguments of one call: `objs` is the table an enqueue reads.
  datatype Call<T> = Call(role: Role, n: nat, behavior: Behavior, single: bool, objs: seq<T>) {
    predicate Valid() {
      role.Producer? ==> n <= |objs|
    }
  }

  // Where a call is, with the local variables that are live there.
  datatype Pc<T> =
    | LoadHead
    | LoadTail(head: nat)
    | Swap(head: nat, take: nat, avail: nat)
    | Copy(head: nat, take: nat, avail: nat, moved: seq<T>)

  datatype Thread<T> = Thread(call: Call<T>, pc: Pc<T>)

  // What a finished call gives back: the objects moved, and the value for `*free_space` or `*available`.
  datatype Return<T> = Return(call: Call<T>, items: seq<T>, left: nat)

  datatype Side = Side(head: nat, tail: nat)

  // `size` is 2^order and `mask` is size - 1. RING_Init makes capacity equal to size.
  datatype Config = Config(order: nat, capacity: nat) {
    function Size(): nat {
      Pow2(order)
    }

    predicate Valid() {
      order <= 31 && capacity <= Size()
    }
  }

  /** Shared memory (prod, cons, slots) and the calls in progress, with two records of the past:
      `sent` holds the objects in the order of the producers' head claims, `log` the returns in order. */
  datatype State<T> = State(prod: Side, cons: Side, slots: seq<T>,
                            threads: map<Tid, Thread<T>>,
                            sent: seq<T>, log: seq<Return<T>>)

  datatype Label<T> = Invoke(tid: Tid, call: Call<T>) | Step(tid: Tid)

  datatype Arith = Words | Wide | Naturals

  // A counter value as it is stored.
  function Norm(w: Arith, x: int): nat {
    if w.Words? then U32(x) else if x < 0 then 0 else x
  }

  // An amount as it is computed from two counters.
  function Amount(w: Arith, x: int): nat {
    if w.Naturals? then (if x < 0 then 0 else x) else U32(x)
  }

  function SideOf<T>(s: State<T>, role: Role): Side {
    if role.Producer? then s.prod else s.cons
  }

  function Opposite<T>(s: State<T>, role: Role): Side {
    if role.Producer? then s.cons else s.prod
  }

  function WithSide<T>(s: State<T>, role: Role, side: Side): State<T> {
    if role.Producer? then s.(prod := side) else s.(cons := side)
  }

  function Slack(cfg: Config, role: Role): nat {
    if role.Producer? then cfg.capacity else 0
  }

  // `x & mask`
  function Slot(cfg: Config, x: nat): (k: nat)
    ensures k < cfg.Size()
  {
    AndLowMask(x, cfg.order);
    And(x, cfg.Size() - 1)
  }

  lemma SlotMod(cfg: Config, x: nat)
    ensures Slot(cfg, x) == x % cfg.Size()
  {
    AndLowMask(x, cfg.order);
  }

  // Wrapping a counter to 32 bits does not change its slot.
  lemma WrappedSlot(cfg: Config, x: nat)
    requires cfg.Valid()
    ensures Slot(cfg, U32(x)) == Slot(cfg, x)
  {
    Pow2_32();
    Pow2Add(32 - cfg.order, cfg.order);
    ModMod(x, Pow2(32 - cfg.order), cfg.Size());
    SlotMod(cfg, x);
    SlotMod(cfg, U32(x));
  }

  // Two positions less than one lap apart have different slots.
  lemma SlotsDiffer(cfg: Config, p: nat, q: nat)
    requires p < q < p + cfg.Size()
    ensures Slot(cfg, p) != Slot(cfg, q)
  {
    SlotMod(cfg, p);
    SlotMod(cfg, q);
    DifferentResidues(p, q, cfg.Size());
  }

  // How many entries a call takes when it sees `avail` of them.
  function Grant(n: nat, behavior: Behavior, avail: nat): nat {
    if n > avail then (if behavior.Fixed? then 0 else avail) else n
  }

  ghost predicate ThreadShape<T>(th: Thread<T>) {
    && th.call.Valid()
    && match th.pc
       case LoadHead => true
       case LoadTail(_) => true
       case Swap(_, take, avail) => 0 < take == Grant(th.call.n, th.call.behavior, avail) <= avail && take <= th.call.n
       case Copy(_, take, avail, moved) =>
         0 < take == Grant(th.call.n, th.call.behavior, avail) <= avail && take <= th.call.n && |moved| <= take
  }

  // What the local variables always satisfy, whatever the schedule and the modulus.
  ghost predicate Shape<T>(cfg: Config, s: State<T>) {
    && |s.slots| == cfg.Size()
    && forall t :: t in s.threads ==> ThreadShape(s.threads[t])
  }

  // A fresh ring: RING_Init zeroes the header, the slots hold whatever was there.
  function Init<T>(slots: seq<T>): State<T> {
    State(Side(0, 0), Side(0, 0), slots, map[], [], [])
  }

  /** A thread starts a call when it has none in progress. A single-producer (single-consumer) call is for a
      caller who is the only producer (consumer) at that time. */
  predicate CanInvoke<T>(s: State<T>, tid: Tid, call: Call<T>) {
    && tid !in s.threads
    && call.Valid()
    && forall t :: t in s.threads && s.threads[t].call.role == call.role ==> !call.single && !s.threads[t].call.single
  }

  function GoTo<T>(s: State<T>, tid: Tid, pc: Pc<T>): State<T>
    requires tid in s.threads
  {
    s.(threads := s.threads[tid := s.threads[tid].(pc := pc)])
  }

  function Finish<T>(s: State<T>, tid: Tid, r: Return<T>): State<T> {
    s.(threads := s.threads - {tid}, log := s.log + [r])
  }

  // The value of the opposite tail decides how much is granted.
  function StepLoadTail<T>(cfg: Config, w: Arith, s: State<T>, tid: Tid): State<T>
    requires tid in s.threads && s.threads[tid].pc.LoadTail?
  {
    var Thread(call, pc) := s.threads[tid];
    var avail := Amount(w, Slack(cfg, call.role) + Opposite(s, call.role).tail - pc.head);
    var take := Grant(call.n, call.behavior, avail);
    if take == 0 then
      Finish(s, tid, Return(call, [], avail))
    else
      GoTo(s, tid, Swap(pc.head, take, avail))
  }

  // Claim [head, head + take) by a store (single) or by compare-and-swap on the own head.
  function StepSwap<T>(w: Arith, s: State<T>, tid: Tid): State<T>
    requires tid in s.threads && s.threads[tid].pc.Swap? && ThreadShape(s.threads[tid])
  {
    var Thread(call, pc) := s.threads[tid];
    var me := SideOf(s, call.role);
    if call.single || me.head == pc.head then
      var s1 := WithSide(s, call.role, me.(head := Norm(w, pc.head + pc.take)));
      var s2 := if call.role.Producer? then s1.(sent := s.sent + call.objs[..pc.take]) else s1;
      GoTo(s2, tid, Copy(pc.head, pc.take, pc.avail, []))
    else if call.role.Producer? then
      GoTo(s, tid, LoadHead)
    else
      GoTo(s, tid, LoadTail(me.head))
  }

  // Move one object between the table and its slot.
  function StepCopy<T>(cfg: Config, w: Arith, s: State<T>, tid: Tid): State<T>
    requires Shape(cfg, s)
    requires tid in s.threads && s.threads[tid].pc.Copy? && |s.threads[tid].pc.moved| < s.threads[tid].pc.take
  {
    var Thread(call, pc) := s.threads[tid];
    assert ThreadShape(s.threads[tid]);
    var k := Slot(cfg, Norm(w, pc.head + |pc.moved|));
    if call.role.Producer? then
      var x := call.objs[|pc.moved|];
      GoTo(s.(slots := s.slots[k := x]), tid, pc.(moved := pc.moved + [x]))
    else
      GoTo(s, tid, pc.(moved := pc.moved + [s.slots[k]]))
  }

  // RING_UpdateTail and the return of the call: spin until the own tail reaches the claim, then pass it. The last load of
  // the wait and the store are one step: once a call has seen the tail at its claim, no step of another thread moves it.
  function StepPublish<T>(w: Arith, s: State<T>, tid: Tid): State<T>
    requires tid in s.threads && s.threads[tid].pc.Copy? && ThreadShape(s.threads[tid])
  {
    var Thread(call, pc) := s.threads[tid];
    var me := SideOf(s, call.role);
    if call.single || me.tail == pc.head then
      Finish(WithSide(s, call.role, me.(tail := Norm(w, pc.head + pc.take))), tid,
             Return(call, pc.moved, pc.avail - pc.take))
    else
      s
  }

  function StepThread<T>(cfg: Config, w: Arith, s: State<T>, tid: Tid): (s': State<T>)
    requires Shape(cfg, s) && tid in s.threads
  {
    var Thread(call, pc) := s.threads[tid];
    assert ThreadShape(s.threads[tid]);
    match pc
    case LoadHead => GoTo(s, tid, LoadTail(SideOf(s, call.role).head))
    case LoadTail(_) => StepLoadTail(cfg, w, s, tid)
    case Swap(_, _, _) => StepSwap(w, s, tid)
    case Copy(_, take, _, moved) =>
      if |moved| < take then StepCopy(cfg, w, s, tid) else StepPublish(w, s, tid)
  }

  // One step of a schedule. A label that is not possible in s changes nothing.
  function Next<T>(cfg: Config, w: Arith, s: State<T>, l: Label<T>): (s': State<T>)
    requires Shape(cfg, s)
    ensures Shape(cfg, s')
  {
    match l
    case Invoke(tid, call) =>
      if CanInvoke(s, tid, call) then s.(threads := s.threads[tid := Thread(call, LoadHead)]) else s
    case Step(tid) =>
      if tid in s.threads then StepThread(cfg, w, s, tid) else s
  }

  function Run<T>(cfg: Config, w: Arith, s: State<T>, schedule: seq<Label<T>>): (s': State<T>)
    requires Shape(cfg, s)
    ensures Shape(cfg, s')
    decreases |schedule|
  {
    if schedule == [] then s
    else Next(cfg, w, Run(cfg, w, s, schedule[..|schedule| - 1]), schedule[|schedule| - 1])
  }

  // The objects given to finished enqueues, and those received from finished dequeues, in order of return.
  function Moved<T>(log: seq<Return<T>>, role: Role): seq<T> {
    if log == [] then []
    else
      var r := log[|log| - 1];
      Moved(log[..|log| - 1], role) + (if r.call.role == role then r.items else [])
  }

  lemma MovedAppend<T>(log: seq<Return<T>>, r: Return<T>, role: Role)
    ensures Moved(log + [r], role) == Moved(log, role) + (if r.call.role == role then r.items else [])
  {
    assert (log + [r])[..|log + [r]| - 1] == log;
  }
}
