/**
 Calls and what they return: every return answers one call that was made, with the arguments it was made with, and
 reports what that call saw; no call is lost; and a call that runs alone is the sequential operation on a queue.
 */
module RingCalls {
  import opened Bits
  import opened RingProtocol
  import opened RingInvariant
  import opened RingTheorems

  // ----- One step.

  /** A thread without a call starts one, unless one side would then have a call in single mode beside another. */
  lemma InvokeStarts<T>(cfg: Config, w: Arith, s: State<T>, tid: Tid, call: Call<T>)
    requires Shape(cfg, s) && tid !in s.threads && (call.role.Producer? ==> call.n <= |call.objs|)
    requires forall t :: t in s.threads && s.threads[t].call.role == call.role ==> !call.single && !s.threads[t].call.single
    ensures Next(cfg, w, s, Invoke(tid, call)) == s.(threads := s.threads[tid := Thread(call, LoadHead)])
  {
  }

  /** No step changes the arguments of a call in progress, and a call leaves only by a return that carries them. */
  lemma StepKeepsCall<T>(cfg: Config, w: Arith, s: State<T>, tid: Tid)
    requires Shape(cfg, s) && tid in s.threads
    ensures CallKept(s, Next(cfg, w, s, Step(tid)), tid)
  {
    assert ThreadShape(s.threads[tid]);
    match s.threads[tid].pc
    case LoadHead =>
    case LoadTail(_) => LoadTailKeepsCall(cfg, w, s, tid);
    case Swap(_, _, _) => SwapKeepsCall(cfg, w, s, tid);
    case Copy(_, _, _, _) => CopyKeepsCall(cfg, w, s, tid);
  }

  // The thread has the same call as before, or has left with a return that carries it; the other threads stay.
  ghost predicate CallKept<T>(s: State<T>, s': State<T>, tid: Tid)
    requires tid in s.threads
  {
    && OthersStay(s.threads, s'.threads, tid)
    && (tid in s'.threads ==> s'.threads[tid].call == s.threads[tid].call && s'.log == s.log)
    && (tid !in s'.threads ==> |s'.log| == |s.log| + 1 && s'.log[..|s.log|] == s.log
                               && s'.log[|s.log|].call == s.threads[tid].call)
  }

  lemma LoadTailKeepsCall<T>(cfg: Config, w: Arith, s: State<T>, tid: Tid)
    requires tid in s.threads && s.threads[tid].pc.LoadTail?
    ensures CallKept(s, StepLoadTail(cfg, w, s, tid), tid)
  {
  }

  lemma SwapKeepsCall<T>(cfg: Config, w: Arith, s: State<T>, tid: Tid)
    requires tid in s.threads && s.threads[tid].pc.Swap? && ThreadShape(s.threads[tid])
    ensures CallKept(s, StepSwap(w, s, tid), tid)
  {
  }

  lemma CopyKeepsCall<T>(cfg: Config, w: Arith, s: State<T>, tid: Tid)
    requires Shape(cfg, s) && tid in s.threads && s.threads[tid].pc.Copy?
    ensures CallKept(s, StepThread(cfg, w, s, tid), tid)
  {
    assert ThreadShape(s.threads[tid]);
  }

  // ----- Runs.

  // The state of the run after its first k labels.
  function At<T>(cfg: Config, w: Arith, slots: seq<T>, schedule: seq<Label<T>>, k: nat): (s: State<T>)
    requires |slots| == cfg.Size() && k <= |schedule|
    ensures Shape(cfg, s)
  {
    Run(cfg, w, Init(slots), schedule[..k])
  }

  lemma AtNext<T>(cfg: Config, w: Arith, slots: seq<T>, schedule: seq<Label<T>>, k: nat)
    requires |slots| == cfg.Size() && k < |schedule|
    ensures At(cfg, w, slots, schedule, k + 1) == Next(cfg, w, At(cfg, w, slots, schedule, k), schedule[k])
  {
    assert schedule[..k + 1][..k] == schedule[..k];
  }

  // Label i starts the call, and the thread is busy with it from then on until after the first k labels.
  ghost predicate Busy<T>(cfg: Config, w: Arith, slots: seq<T>, schedule: seq<Label<T>>, tid: Tid, call: Call<T>, i: nat, k: nat)
    requires |slots| == cfg.Size()
  {
    && i < k <= |schedule| && schedule[i] == Invoke(tid, call)
    && tid !in At(cfg, w, slots, schedule, i).threads
    && forall m :: i < m <= k ==> Has(At(cfg, w, slots, schedule, m), tid, call)
  }

  ghost predicate Has<T>(s: State<T>, tid: Tid, call: Call<T>) {
    tid in s.threads && s.threads[tid].call == call
  }

  // The amount a call computes when it loads the opposite tail now: the room there is, and what its side has claimed since
  // it loaded its head.
  function Seen<T>(cfg: Config, w: Arith, s: State<T>, tid: Tid): nat
    requires tid in s.threads && s.threads[tid].pc.LoadTail?
  {
    var role := s.threads[tid].call.role;
    Amount(w, Room(cfg, s, role) + SideOf(s, role).head - s.threads[tid].pc.head)
  }

  // Label m is a load of the opposite tail by the thread, which sees the amount `avail`.
  ghost predicate Looks<T>(cfg: Config, w: Arith, slots: seq<T>, schedule: seq<Label<T>>, tid: Tid, m: nat, avail: nat)
    requires |slots| == cfg.Size() && m < |schedule|
  {
    var s := At(cfg, w, slots, schedule, m);
    schedule[m] == Step(tid) && tid in s.threads && s.threads[tid].pc.LoadTail? && avail == Seen(cfg, w, s, tid)
  }

  // What a step does to the amount a call has seen.
  lemma StepKeepsAvail<T>(cfg: Config, w: Arith, s: State<T>, tid: Tid)
    requires Shape(cfg, s) && tid in s.threads
    ensures var s' := Next(cfg, w, s, Step(tid));
            var pc := s.threads[tid].pc;
            && (pc.LoadTail? && tid in s'.threads ==> s'.threads[tid].pc.Swap? && s'.threads[tid].pc.avail == Seen(cfg, w, s, tid))
            && (!pc.LoadTail? && tid in s'.threads && (s'.threads[tid].pc.Swap? || s'.threads[tid].pc.Copy?) ==>
                  (pc.Swap? || pc.Copy?) && s'.threads[tid].pc.avail == pc.avail)
  {
    assert ThreadShape(s.threads[tid]);
  }

  // After k labels the thread is busy with a call that label i started, and what it holds as seen it saw at label m.
  ghost predicate Known<T>(cfg: Config, w: Arith, slots: seq<T>, schedule: seq<Label<T>>, k: nat, tid: Tid, i: nat, m: nat)
    requires |slots| == cfg.Size() && k <= |schedule|
  {
    && tid in At(cfg, w, slots, schedule, k).threads
    && var Thread(call, pc) := At(cfg, w, slots, schedule, k).threads[tid];
       && Busy(cfg, w, slots, schedule, tid, call, i, k)
       && (pc.Swap? || pc.Copy? ==> i < m < k && Looks(cfg, w, slots, schedule, tid, m, pc.avail))
  }

  lemma KnownStays<T>(cfg: Config, w: Arith, slots: seq<T>, schedule: seq<Label<T>>, k: nat, tid: Tid, i: nat, m: nat)
    requires |slots| == cfg.Size() && k < |schedule| && Known(cfg, w, slots, schedule, k, tid, i, m)
    requires schedule[k] != Step(tid)
    ensures Known(cfg, w, slots, schedule, k + 1, tid, i, m)
  {
    AtNext(cfg, w, slots, schedule, k);
    OthersUntouched(cfg, w, At(cfg, w, slots, schedule, k), schedule[k], tid);
  }

  lemma KnownSteps<T>(cfg: Config, w: Arith, slots: seq<T>, schedule: seq<Label<T>>, k: nat, tid: Tid, i: nat, m: nat)
    returns (m': nat)
    requires |slots| == cfg.Size() && k < |schedule| && Known(cfg, w, slots, schedule, k, tid, i, m)
    requires schedule[k] == Step(tid) && tid in At(cfg, w, slots, schedule, k + 1).threads
    ensures Known(cfg, w, slots, schedule, k + 1, tid, i, m')
  {
    var s := At(cfg, w, slots, schedule, k);
    AtNext(cfg, w, slots, schedule, k);
    StepKeepsCall(cfg, w, s, tid);
    StepKeepsAvail(cfg, w, s, tid);
    m' := if s.threads[tid].pc.LoadTail? then k else m;
  }

  // A call in progress was started by a label, and what it holds as seen it saw at a later one.
  lemma {:induction false} Origin<T>(cfg: Config, w: Arith, slots: seq<T>, schedule: seq<Label<T>>, k: nat, tid: Tid)
    returns (i: nat, m: nat)
    requires |slots| == cfg.Size() && k <= |schedule| && tid in At(cfg, w, slots, schedule, k).threads
    ensures Known(cfg, w, slots, schedule, k, tid, i, m)
    decreases k
  {
    if k == 0 {
      assert false;
    } else {
      var s := At(cfg, w, slots, schedule, k - 1);
      AtNext(cfg, w, slots, schedule, k - 1);
      if tid !in s.threads {
        OnlyInvokeStarts(cfg, w, s, schedule[k - 1], tid);
        i, m := k - 1, k - 1;
      } else {
        i, m := Origin(cfg, w, slots, schedule, k - 1, tid);
        if schedule[k - 1] == Step(tid) {
          m := KnownSteps(cfg, w, slots, schedule, k - 1, tid, i, m);
        } else {
          KnownStays(cfg, w, slots, schedule, k - 1, tid, i, m);
        }
      }
    }
  }

  lemma OthersUntouched<T>(cfg: Config, w: Arith, s: State<T>, l: Label<T>, tid: Tid)
    requires Shape(cfg, s) && tid in s.threads && l != Step(tid)
    ensures var s' := Next(cfg, w, s, l);
            tid in s'.threads && s'.threads[tid] == s.threads[tid]
  {
    if l.Step? && l.tid in s.threads {
      StepKeepsCall(cfg, w, s, l.tid);
    }
  }

  lemma OnlyInvokeStarts<T>(cfg: Config, w: Arith, s: State<T>, l: Label<T>, tid: Tid)
    requires Shape(cfg, s) && tid !in s.threads && tid in Next(cfg, w, s, l).threads
    ensures l.Invoke? && l.tid == tid && Next(cfg, w, s, l).threads[tid] == Thread(l.call, LoadHead)
  {
    if l.Step? && l.tid in s.threads {
      StepKeepsCall(cfg, w, s, l.tid);
    }
  }

  // One label makes at most one return: that of the call it steps, which then is over.
  lemma OneReturn<T>(cfg: Config, w: Arith, s: State<T>, l: Label<T>)
    requires Shape(cfg, s)
    ensures var s' := Next(cfg, w, s, l);
            s'.log == s.log || (|s'.log| == |s.log| + 1 && s'.log[..|s.log|] == s.log
                                && l.Step? && l.tid in s.threads && l.tid !in s'.threads)
  {
    if l.Step? && l.tid in s.threads {
      StepKeepsCall(cfg, w, s, l.tid);
    }
  }

  // What the return of the step says.
  ghost predicate Reports<T>(call: Call<T>, avail: nat, r: Return<T>) {
    r.call == call && |r.items| == Grant(call.n, call.behavior, avail) && r.left == avail - |r.items|
  }

  // The step by which a call leaves.
  lemma LeavesWith<T>(cfg: Config, w: Arith, s: State<T>, tid: Tid)
    requires Shape(cfg, s) && tid in s.threads && tid !in Next(cfg, w, s, Step(tid)).threads
    ensures var s' := Next(cfg, w, s, Step(tid));
            var Thread(call, pc) := s.threads[tid];
            && |s'.log| == |s.log| + 1 && (pc.LoadTail? || pc.Copy?)
            && Reports(call, if pc.LoadTail? then Seen(cfg, w, s, tid) else pc.avail, s'.log[|s.log|])
  {
    assert ThreadShape(s.threads[tid]);
  }

  // The label that made return x is before the first n labels are over.
  lemma {:induction false} ReturnStep<T>(cfg: Config, w: Arith, slots: seq<T>, schedule: seq<Label<T>>, n: nat, x: nat)
    returns (j: nat)
    requires |slots| == cfg.Size() && n <= |schedule| && x < |At(cfg, w, slots, schedule, n).log|
    ensures j < n && Logs(cfg, w, slots, schedule, x, j, At(cfg, w, slots, schedule, n).log[x])
    decreases n
  {
    if n == 0 {
      assert false;
    } else {
      var s := At(cfg, w, slots, schedule, n - 1);
      AtNext(cfg, w, slots, schedule, n - 1);
      OneReturn(cfg, w, s, schedule[n - 1]);
      if x < |s.log| {
        j := ReturnStep(cfg, w, slots, schedule, n - 1, x);
        assert At(cfg, w, slots, schedule, n).log[..|s.log|][x] == s.log[x];
      } else {
        j := n - 1;
      }
    }
  }

  // Label j makes return x, which is r.
  ghost predicate Logs<T>(cfg: Config, w: Arith, slots: seq<T>, schedule: seq<Label<T>>, x: nat, j: nat, r: Return<T>)
    requires |slots| == cfg.Size() && j < |schedule|
  {
    |At(cfg, w, slots, schedule, j).log| == x
    && At(cfg, w, slots, schedule, j + 1).log == At(cfg, w, slots, schedule, j).log + [r]
  }

  /** Return x of the run answers the call that label i starts: from then on the thread is busy with that call, at label m it
      sees an amount, and at label j it leaves, reporting the objects it was granted of that amount and what is left of it. */
  ghost predicate Answers<T>(cfg: Config, w: Arith, slots: seq<T>, schedule: seq<Label<T>>, x: nat,
                             tid: Tid, i: nat, m: nat, j: nat)
    requires |slots| == cfg.Size()
  {
    && x < |Run(cfg, w, Init(slots), schedule).log| && j < |schedule| && schedule[j] == Step(tid)
    && var r := Run(cfg, w, Init(slots), schedule).log[x];
       && Busy(cfg, w, slots, schedule, tid, r.call, i, j)
       && i < m <= j && Looks(cfg, w, slots, schedule, tid, m, r.left + |r.items|)
       && |r.items| == Grant(r.call.n, r.call.behavior, r.left + |r.items|)
       && Logs(cfg, w, slots, schedule, x, j, r) && tid !in At(cfg, w, slots, schedule, j + 1).threads
  }

  /** Every return answers a call that was made. */
  lemma EveryReturnAnswers<T>(cfg: Config, w: Arith, slots: seq<T>, schedule: seq<Label<T>>, x: nat)
    returns (tid: Tid, i: nat, m: nat, j: nat)
    requires |slots| == cfg.Size() && x < |Run(cfg, w, Init(slots), schedule).log|
    ensures Answers(cfg, w, slots, schedule, x, tid, i, m, j)
  {
    assert schedule[..|schedule|] == schedule;
    j := ReturnStep(cfg, w, slots, schedule, |schedule|, x);
    var s := At(cfg, w, slots, schedule, j);
    AtNext(cfg, w, slots, schedule, j);
    OneReturn(cfg, w, s, schedule[j]);
    tid := schedule[j].tid;
    i, m := Origin(cfg, w, slots, schedule, j, tid);
    LeavesWith(cfg, w, s, tid);
    m := if s.threads[tid].pc.LoadTail? then j else m;
  }

  // Some call that was made is answered by return x.
  ghost predicate Answered<T>(cfg: Config, w: Arith, slots: seq<T>, schedule: seq<Label<T>>, x: nat)
    requires |slots| == cfg.Size()
  {
    exists tid, i, m, j :: Answers(cfg, w, slots, schedule, x, tid, i, m, j)
  }

  ghost predicate AllAnswered<T>(cfg: Config, w: Arith, slots: seq<T>, schedule: seq<Label<T>>)
    requires |slots| == cfg.Size()
  {
    forall x: nat :: x < |Run(cfg, w, Init(slots), schedule).log| ==> Answered(cfg, w, slots, schedule, x)
  }

  lemma AllReturnsAnswer<T>(cfg: Config, w: Arith, slots: seq<T>, schedule: seq<Label<T>>)
    requires |slots| == cfg.Size()
    ensures AllAnswered(cfg, w, slots, schedule)
  {
    forall x: nat | x < |Run(cfg, w, Init(slots), schedule).log|
      ensures Answered(cfg, w, slots, schedule, x)
    {
      var tid, i, m, j := EveryReturnAnswers(cfg, w, slots, schedule, x);
    }
  }

  /** No call is answered twice. */
  lemma AnsweredOnce<T>(cfg: Config, w: Arith, slots: seq<T>, schedule: seq<Label<T>>,
                        x: nat, m: nat, j: nat, x': nat, m': nat, j': nat, tid: Tid, i: nat)
    requires |slots| == cfg.Size()
    requires Answers(cfg, w, slots, schedule, x, tid, i, m, j) && Answers(cfg, w, slots, schedule, x', tid, i, m', j')
    ensures x == x' && j == j'
  {
  }

  // From label i on, the thread is busy with the call until it leaves or the first n labels are over.
  lemma {:induction false} FollowCall<T>(cfg: Config, w: Arith, slots: seq<T>, schedule: seq<Label<T>>,
                                         tid: Tid, call: Call<T>, i: nat, n: nat) returns (j: nat)
    requires |slots| == cfg.Size() && i < n <= |schedule|
    requires Busy(cfg, w, slots, schedule, tid, call, i, i + 1)
    ensures Busy(cfg, w, slots, schedule, tid, call, i, j) && j <= n
    ensures j < n ==> schedule[j] == Step(tid) && tid !in At(cfg, w, slots, schedule, j + 1).threads
    decreases n
  {
    if n == i + 1 {
      j := n;
    } else {
      j := FollowCall(cfg, w, slots, schedule, tid, call, i, n - 1);
      if j == n - 1 {
        BusyOrLeaves(cfg, w, slots, schedule, tid, call, i, j);
        j := if tid in At(cfg, w, slots, schedule, n).threads then n else j;
      }
    }
  }

  // One label later it is busy with the call still, or this label was the step by which it left.
  lemma BusyOrLeaves<T>(cfg: Config, w: Arith, slots: seq<T>, schedule: seq<Label<T>>, tid: Tid, call: Call<T>, i: nat, j: nat)
    requires |slots| == cfg.Size() && j < |schedule| && Busy(cfg, w, slots, schedule, tid, call, i, j)
    ensures if tid in At(cfg, w, slots, schedule, j + 1).threads then Busy(cfg, w, slots, schedule, tid, call, i, j + 1)
            else schedule[j] == Step(tid)
  {
    var s := At(cfg, w, slots, schedule, j);
    AtNext(cfg, w, slots, schedule, j);
    assert Has(s, tid, call);
    if schedule[j] == Step(tid) {
      StepKeepsCall(cfg, w, s, tid);
    } else {
      OthersUntouched(cfg, w, s, schedule[j], tid);
    }
  }

  // What a run has logged stays logged.
  lemma {:induction false} LogGrows<T>(cfg: Config, w: Arith, slots: seq<T>, schedule: seq<Label<T>>, j: nat, n: nat)
    requires |slots| == cfg.Size() && j <= n <= |schedule|
    ensures At(cfg, w, slots, schedule, j).log <= At(cfg, w, slots, schedule, n).log
    decreases n
  {
    if j == n {
    } else {
      LogGrows(cfg, w, slots, schedule, j, n - 1);
      AtNext(cfg, w, slots, schedule, n - 1);
      OneReturn(cfg, w, At(cfg, w, slots, schedule, n - 1), schedule[n - 1]);
    }
  }

  // Two labels that make return x are the same.
  lemma SameReturnStep<T>(cfg: Config, w: Arith, slots: seq<T>, schedule: seq<Label<T>>, x: nat,
                          j: nat, r: Return<T>, j': nat, r': Return<T>)
    requires |slots| == cfg.Size() && j < |schedule| && j' < |schedule|
    requires Logs(cfg, w, slots, schedule, x, j, r) && Logs(cfg, w, slots, schedule, x, j', r')
    ensures j == j'
  {
    if j < j' {
      LogGrows(cfg, w, slots, schedule, j + 1, j');
    } else if j' < j {
      LogGrows(cfg, w, slots, schedule, j' + 1, j);
    }
  }

  // At one time a thread is busy with one call.
  lemma SameStart<T>(cfg: Config, w: Arith, slots: seq<T>, schedule: seq<Label<T>>, tid: Tid,
                     call: Call<T>, i: nat, call': Call<T>, i': nat, j: nat)
    requires |slots| == cfg.Size()
    requires Busy(cfg, w, slots, schedule, tid, call, i, j) && Busy(cfg, w, slots, schedule, tid, call', i', j)
    ensures i == i'
  {
  }

  // The return of a call that left at label j.
  lemma LeftAnswers<T>(cfg: Config, w: Arith, slots: seq<T>, schedule: seq<Label<T>>, tid: Tid, call: Call<T>, i: nat, j: nat)
    returns (x: nat, m: nat)
    requires |slots| == cfg.Size() && j < |schedule| && Busy(cfg, w, slots, schedule, tid, call, i, j)
    requires schedule[j] == Step(tid) && tid !in At(cfg, w, slots, schedule, j + 1).threads
    ensures Answers(cfg, w, slots, schedule, x, tid, i, m, j)
  {
    var s := At(cfg, w, slots, schedule, j);
    assert Has(s, tid, call);
    AtNext(cfg, w, slots, schedule, j);
    StepKeepsCall(cfg, w, s, tid);
    x := |s.log|;
    LogGrows(cfg, w, slots, schedule, j + 1, |schedule|);
    assert schedule[..|schedule|] == schedule;
    var tid', i', m', j' := EveryReturnAnswers(cfg, w, slots, schedule, x);
    var r := Run(cfg, w, Init(slots), schedule).log[x];
    SameReturnStep(cfg, w, slots, schedule, x, j, At(cfg, w, slots, schedule, j + 1).log[x], j', r);
    SameStart(cfg, w, slots, schedule, tid, call, i, r.call, i', j);
    m := m';
  }

  /** No call is lost: at the end it is in progress, with the arguments it was made with, or one return answers it. */
  lemma NoCallLost<T>(cfg: Config, w: Arith, slots: seq<T>, schedule: seq<Label<T>>, tid: Tid, call: Call<T>, i: nat)
    returns (answered: bool, x: nat, m: nat, j: nat)
    requires |slots| == cfg.Size() && Busy(cfg, w, slots, schedule, tid, call, i, i + 1)
    ensures !answered ==> Has(Run(cfg, w, Init(slots), schedule), tid, call)
    ensures answered ==> Answers(cfg, w, slots, schedule, x, tid, i, m, j)
  {
    assert schedule[..|schedule|] == schedule;
    x, m := 0, 0;
    j := FollowCall(cfg, w, slots, schedule, tid, call, i, |schedule|);
    answered := j < |schedule|;
    if answered {
      x, m := LeftAnswers(cfg, w, slots, schedule, tid, call, i, j);
    } else {
      assert Has(At(cfg, w, slots, schedule, j), tid, call);
    }
  }

  // ----- A call alone.

  // How many steps of its own the call is at most from its claim, if it does not return before.
  function Distance<T>(s: State<T>, th: Thread<T>): nat {
    var again := if th.call.role.Producer? then 3 else 2;
    match th.pc
    case LoadHead => 3
    case LoadTail(head) => if th.call.single || head == SideOf(s, th.call.role).head then 2 else again + 2
    case Swap(head, _, _) => if th.call.single || head == SideOf(s, th.call.role).head then 1 else again + 1
    case Copy(_, _, _, _) => 0
  }

  lemma DistanceFalls<T>(cfg: Config, w: Arith, s: State<T>, tid: Tid)
    requires Shape(cfg, s) && tid in s.threads && Distance(s, s.threads[tid]) > 0
    ensures var s' := Next(cfg, w, s, Step(tid));
            tid in s'.threads ==> Distance(s', s'.threads[tid]) < Distance(s, s.threads[tid])
  {
    assert ThreadShape(s.threads[tid]);
  }

  /** Whatever the others have left behind, five steps of a call alone bring it to its return or to its claim, in every
      arithmetic: the swap is lost at most once. */
  lemma {:induction false} AloneClaims<T>(cfg: Config, w: Arith, s: State<T>, tid: Tid) returns (k: nat)
    requires Shape(cfg, s) && tid in s.threads
    ensures k <= Distance(s, s.threads[tid]) <= 5
    ensures var s' := Run(cfg, w, s, Steps(tid, k));
            tid in s'.threads ==> s'.threads[tid].pc.Copy?
    decreases Distance(s, s.threads[tid])
  {
    k := 0;
    if Distance(s, s.threads[tid]) > 0 {
      var s1 := Next(cfg, w, s, Step(tid));
      DistanceFalls(cfg, w, s, tid);
      if tid in s1.threads {
        k := AloneClaims(cfg, w, s1, tid);
      }
      RunFirst(cfg, w, s, Step(tid), Steps(tid, k));
      k := k + 1;
    }
  }

  // No call of the given side is in progress.
  ghost predicate NoneOf<T>(s: State<T>, role: Role) {
    forall t :: t in s.threads ==> s.threads[t].call.role != role
  }

  // With no call in progress, all that is claimed is published: the room of a side is what the queue says.
  lemma QuietRoom<T>(cfg: Config, s: State<T>, role: Role)
    requires Inv(cfg, s) && NoneOf(s, role)
    ensures SideOf(s, role).head == SideOf(s, role).tail
    ensures Room(cfg, s, role) == if role.Producer? then cfg.capacity - |Live(cfg, s)| else |Live(cfg, s)|
  {
    if Pending(s, role) > 0 {
      var t := SomeoneCanPublish(cfg, s, role);
    }
  }

  // The call, now at its claim, alone on its side and with the true room as the amount it saw.
  ghost predicate AtClaim<T>(cfg: Config, s: State<T>, s': State<T>, tid: Tid, call: Call<T>) {
    && AtFront(s', tid) && tid !in s.threads
    && s'.threads == s.threads[tid := s'.threads[tid]] && s'.log == s.log
    && s'.threads[tid].call == call && s'.threads[tid].pc.moved == []
    && s'.threads[tid].pc.avail == Room(cfg, s, call.role)
    && s'.threads[tid].pc.take == Grant(call.n, call.behavior, Room(cfg, s, call.role))
  }

  // The call came back with nothing, and nothing else has changed.
  ghost predicate Refused<T>(cfg: Config, s: State<T>, s': State<T>, tid: Tid, call: Call<T>) {
    && SameMemory(s, s') && s'.threads == s.threads && Room(cfg, s, call.role) >= 0
    && s'.log == s.log + [Return(call, [], Room(cfg, s, call.role))]
    && Grant(call.n, call.behavior, Room(cfg, s, call.role)) == 0
  }

  // The state s with the one call more.
  function With<T>(s: State<T>, tid: Tid, call: Call<T>, pc: Pc<T>): State<T> {
    s.(threads := s.threads[tid := Thread(call, pc)])
  }

  lemma LoadsTail<T>(cfg: Config, s: State<T>, tid: Tid, call: Call<T>, room: nat)
    requires tid !in s.threads && room == Room(cfg, s, call.role)
    ensures var s' := StepLoadTail(cfg, Naturals, With(s, tid, call, LoadTail(SideOf(s, call.role).head)), tid);
            var take := Grant(call.n, call.behavior, room);
            s' == if take == 0 then s.(log := s.log + [Return(call, [], room)])
                  else With(s, tid, call, Swap(SideOf(s, call.role).head, take, room))
  {
    assert With(s, tid, call, LoadTail(SideOf(s, call.role).head)).threads - {tid} == s.threads;
  }

  lemma AloneRefused<T>(cfg: Config, s: State<T>, s2: State<T>, tid: Tid, call: Call<T>)
    requires Inv(cfg, s) && tid !in s.threads && Inv(cfg, s2) && Room(cfg, s, call.role) >= 0
    requires s2 == With(s, tid, call, LoadTail(SideOf(s, call.role).head))
    requires Grant(call.n, call.behavior, Room(cfg, s, call.role)) == 0
    ensures Refused(cfg, s, Next(cfg, Naturals, s2, Step(tid)), tid, call)
  {
    NextInv(cfg, Naturals, s2, Step(tid));
    LoadsTail(cfg, s, tid, call, Room(cfg, s, call.role));
  }

  lemma AloneGranted<T>(cfg: Config, s: State<T>, s2: State<T>, s3: State<T>, tid: Tid, call: Call<T>)
    requires Inv(cfg, s) && tid !in s.threads && Inv(cfg, s2) && Room(cfg, s, call.role) >= 0
    requires s2 == With(s, tid, call, LoadTail(SideOf(s, call.role).head))
    requires s3 == Next(cfg, Naturals, s2, Step(tid))
    requires Grant(call.n, call.behavior, Room(cfg, s, call.role)) > 0
    ensures Inv(cfg, s3)
    ensures var room := Room(cfg, s, call.role);
            s3 == With(s, tid, call, Swap(SideOf(s, call.role).head, Grant(call.n, call.behavior, room), room))
  {
    NextInv(cfg, Naturals, s2, Step(tid));
    LoadsTail(cfg, s, tid, call, Room(cfg, s, call.role));
  }

  lemma AloneWins<T>(cfg: Config, s: State<T>, s3: State<T>, s4: State<T>, tid: Tid, call: Call<T>, take: nat, room: nat)
    requires tid !in s.threads && room == Room(cfg, s, call.role)
    requires s3 == With(s, tid, call, Swap(SideOf(s, call.role).head, take, room)) && ClaimEffect(s3, s4, tid)
    requires SideOf(s, call.role).head == SideOf(s, call.role).tail && take == Grant(call.n, call.behavior, room)
    ensures AtClaim(cfg, s, s4, tid, call)
  {
  }

  // What a call does to the queue when it runs alone: it is the sequential operation.
  ghost predicate QueueStep<T>(cfg: Config, s: State<T>, s': State<T>, call: Call<T>)
    requires Inv(cfg, s) && Inv(cfg, s')
  {
    && s'.threads == s.threads && |s'.log| == |s.log| + 1 && s'.log[..|s.log|] == s.log
    && var (before, after, r) := (Live(cfg, s), Live(cfg, s'), s'.log[|s.log|]);
       && r.call == call
       && if call.role.Producer? then
            && |before| <= cfg.capacity && |r.items| == Grant(call.n, call.behavior, cfg.capacity - |before|)
            && r.items <= call.objs && after == before + r.items && r.left == cfg.capacity - |after|
          else
            && |r.items| == Grant(call.n, call.behavior, |before|)
            && before == r.items + after && r.left == |after|
  }

  // The queue after a call that came back with nothing, or with its claim published.
  lemma RefusedIsQueueStep<T>(cfg: Config, s: State<T>, s': State<T>, tid: Tid, call: Call<T>)
    requires Inv(cfg, s) && Inv(cfg, s') && NoneOf(s, call.role) && Refused(cfg, s, s', tid, call)
    ensures QueueStep(cfg, s, s', call)
  {
    QuietRoom(cfg, s, call.role);
    assert Live(cfg, s') == Live(cfg, s);
  }

  // The one return more, which moved the objects of the claim.
  ghost predicate Returned<T>(cfg: Config, s: State<T>, s': State<T>, call: Call<T>, r: Return<T>) {
    && s'.threads == s.threads && s'.log == s.log + [r] && r.call == call && Room(cfg, s, call.role) >= 0
    && |r.items| == Grant(call.n, call.behavior, Room(cfg, s, call.role))
    && r.left == Room(cfg, s, call.role) - |r.items| && (call.role.Producer? ==> r.items <= call.objs)
  }

  lemma PublishedReturn<T>(cfg: Config, s: State<T>, s1: State<T>, s': State<T>, tid: Tid, call: Call<T>) returns (r: Return<T>)
    requires AtClaim(cfg, s, s1, tid, call) && OneThread(cfg, s1, tid) && FrontPublished(s1, s', tid)
    ensures Returned(cfg, s, s', call, r)
  {
    assert s1.threads - {tid} == s.threads;
    r := s'.log[|s.log|];
  }

  lemma ReturnedIsQueueStep<T>(cfg: Config, s: State<T>, s': State<T>, call: Call<T>, r: Return<T>)
    requires Inv(cfg, s) && Inv(cfg, s') && NoneOf(s, call.role) && Returned(cfg, s, s', call, r)
    ensures QueueStep(cfg, s, s', call)
  {
    QuietRoom(cfg, s, call.role);
    LiveAfter(cfg, s, s', r);
  }

  // What one more return means for the queue.
  lemma LiveAfter<T>(cfg: Config, s: State<T>, s': State<T>, r: Return<T>)
    requires Inv(cfg, s) && Inv(cfg, s') && s'.log == s.log + [r]
    ensures r.call.role.Producer? ==> Live(cfg, s') == Live(cfg, s) + r.items
    ensures r.call.role.Consumer? ==> Live(cfg, s) == r.items + Live(cfg, s')
  {
    var got := Moved(s.log, Consumer);
    MovedAppend(s.log, r, Producer);
    MovedAppend(s.log, r, Consumer);
    Conservation(cfg, s);
    Conservation(cfg, s');
    if r.call.role.Producer? {
      assert got + (Live(cfg, s) + r.items) == (got + Live(cfg, s)) + r.items;
      CancelFront(got, Live(cfg, s'), Live(cfg, s) + r.items);
    } else {
      assert (got + r.items) + Live(cfg, s') == got + (r.items + Live(cfg, s'));
      CancelFront(got, Live(cfg, s), r.items + Live(cfg, s'));
    }
  }

  lemma CancelFront<T>(a: seq<T>, b: seq<T>, c: seq<T>)
    requires a + b == a + c
    ensures b == c
  {
    assert (a + b)[|a|..] == b && (a + c)[|a|..] == c;
  }

  // The head has been loaded, and the call looks at the room.
  lemma AloneBegins<T>(cfg: Config, s: State<T>, tid: Tid, call: Call<T>)
    requires Inv(cfg, s) && tid !in s.threads && call.Valid() && NoneOf(s, call.role)
    ensures var s2 := Next(cfg, Naturals, Next(cfg, Naturals, s, Invoke(tid, call)), Step(tid));
            Inv(cfg, s2) && s2 == With(s, tid, call, LoadTail(SideOf(s, call.role).head))
    ensures Room(cfg, s, call.role) >= 0
  {
    var s1 := With(s, tid, call, LoadHead);
    assert Room(cfg, s, call.role) >= 0 by { QuietRoom(cfg, s, call.role); }
    InvokeStarts(cfg, Naturals, s, tid, call);
    assert Inv(cfg, s1) by { NextInv(cfg, Naturals, s, Invoke(tid, call)); }
    LoadsHead(cfg, s, tid, call);
    NextInv(cfg, Naturals, s1, Step(tid));
  }

  lemma LoadsHead<T>(cfg: Config, s: State<T>, tid: Tid, call: Call<T>)
    requires Shape(cfg, With(s, tid, call, LoadHead))
    ensures Next(cfg, Naturals, With(s, tid, call, LoadHead), Step(tid))
            == With(s, tid, call, LoadTail(SideOf(s, call.role).head))
  {
    var s1 := With(s, tid, call, LoadHead);
    assert s1.threads[tid := Thread(call, LoadTail(SideOf(s, call.role).head))]
           == s.threads[tid := Thread(call, LoadTail(SideOf(s, call.role).head))];
  }

  lemma AloneComesBack<T>(cfg: Config, s: State<T>, s2: State<T>, tid: Tid, call: Call<T>)
    requires Inv(cfg, s) && tid !in s.threads && NoneOf(s, call.role) && Inv(cfg, s2) && Room(cfg, s, call.role) >= 0
    requires s2 == With(s, tid, call, LoadTail(SideOf(s, call.role).head))
    requires Grant(call.n, call.behavior, Room(cfg, s, call.role)) == 0
    ensures var s' := Run(cfg, Naturals, s2, Steps(tid, 1));
            Inv(cfg, s') && QueueStep(cfg, s, s', call)
  {
    AloneRefused(cfg, s, s2, tid, call);
    RunFirst(cfg, Naturals, s2, Step(tid), []);
    assert Steps<T>(tid, 1) == [Step(tid)] + [];
    NextInv(cfg, Naturals, s2, Step(tid));
    RefusedIsQueueStep(cfg, s, Next(cfg, Naturals, s2, Step(tid)), tid, call);
  }

  lemma AloneEnds<T>(cfg: Config, s: State<T>, s2: State<T>, tid: Tid, call: Call<T>) returns (k: nat)
    requires Inv(cfg, s) && tid !in s.threads && NoneOf(s, call.role) && Inv(cfg, s2) && Room(cfg, s, call.role) >= 0
    requires s2 == With(s, tid, call, LoadTail(SideOf(s, call.role).head))
    requires Grant(call.n, call.behavior, Room(cfg, s, call.role)) > 0
    ensures var s' := Run(cfg, Naturals, s2, Steps(tid, k));
            Inv(cfg, s') && QueueStep(cfg, s, s', call)
  {
    var s3 := Next(cfg, Naturals, s2, Step(tid));
    var s4 := Next(cfg, Naturals, s3, Step(tid));
    AloneGranted(cfg, s, s2, s3, tid, call);
    NextInv(cfg, Naturals, s3, Step(tid));
    WonSwapEffect(cfg, Naturals, s3, tid);
    QuietRoom(cfg, s, call.role);
    AloneWins(cfg, s, s3, s4, tid, call, Grant(call.n, call.behavior, Room(cfg, s, call.role)), Room(cfg, s, call.role));
    var left := Left(s4.threads[tid]);
    AlonePublishes(cfg, s, s4, tid, call);
    k := left + 2;
    RunFirst(cfg, Naturals, s2, Step(tid), Steps(tid, left + 1));
    RunFirst(cfg, Naturals, s3, Step(tid), Steps(tid, left));
  }

  lemma AlonePublishes<T>(cfg: Config, s: State<T>, s4: State<T>, tid: Tid, call: Call<T>)
    requires Inv(cfg, s) && NoneOf(s, call.role) && Inv(cfg, s4) && AtClaim(cfg, s, s4, tid, call)
    ensures var s' := Run(cfg, Naturals, s4, Steps(tid, Left(s4.threads[tid])));
            Inv(cfg, s') && QueueStep(cfg, s, s', call)
  {
    var steps := Steps(tid, Left(s4.threads[tid]));
    PublishFront(cfg, s4, tid);
    RunKeepsInv(cfg, Naturals, s4, steps);
    assert OneThread(cfg, s4, tid);
    var r := PublishedReturn(cfg, s, s4, Run(cfg, Naturals, s4, steps), tid, call);
    ReturnedIsQueueStep(cfg, s, Run(cfg, Naturals, s4, steps), call, r);
  }

  /** A call that starts while no call of its side is in progress, and then runs alone, does to the queue of published objects
      what the sequential operation does, although calls of the other side may be anywhere: an enqueue appends what the free
      space grants it, a dequeue takes that from the front, and both report what is left. */
  lemma AloneIsSequential<T>(cfg: Config, s: State<T>, tid: Tid, call: Call<T>) returns (k: nat)
    requires Inv(cfg, s) && tid !in s.threads && (call.role.Producer? ==> call.n <= |call.objs|) && NoneOf(s, call.role)
    ensures var s' := Run(cfg, Naturals, s, [Invoke(tid, call)] + Steps(tid, k));
            Inv(cfg, s') && QueueStep(cfg, s, s', call)
  {
    var s1 := Next(cfg, Naturals, s, Invoke(tid, call));
    var s2 := Next(cfg, Naturals, s1, Step(tid));
    AloneBegins(cfg, s, tid, call);
    if Grant(call.n, call.behavior, Room(cfg, s, call.role)) == 0 {
      k := 1;
      AloneComesBack(cfg, s, s2, tid, call);
    } else {
      k := AloneEnds(cfg, s, s2, tid, call);
    }
    RunFirst(cfg, Naturals, s1, Step(tid), Steps(tid, k));
    RunFirst(cfg, Naturals, s, Invoke(tid, call), Steps(tid, k + 1));
    k := k + 1;
  }
}
