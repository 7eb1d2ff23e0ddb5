/** The order of service in the runs of the kernel: at the semaphores, in the ready queues and at the processor. */
module KernelOrder {
  import opened Kernels
  import opened KernelRuns

  // ----- semaphores -----

  ghost predicate IsReady(k: Kernel, t: Tid)
  {
    exists p | 0 <= p < |k.ready| :: t in k.ready[p]
  }

  /** The running thread is in a P on s, and this pass of its loop does not return. */
  ghost predicate GoesToSleep(k: Kernel, e: Event, k': Kernel, s: SemId)
  {
    && k.cpu.Runs? && k.cpu.t in k.task && k.cpu.t in k'.task
    && (e == P(s) || (e == Recheck && k.task[k.cpu.t] == InP(s)))
    && k'.task[k.cpu.t] == InP(s)
  }

  ghost function Slept(k: Kernel, e: Event, k': Kernel, s: SemId): (q: seq<Tid>)
  {
    if GoesToSleep(k, e, k', s) then [k.cpu.t] else []
  }

  ghost predicate BecomesReady(k: Kernel, k': Kernel, t: Tid)
  {
    IsReady(k', t) && !IsReady(k, t)
  }

  /** The thread, if any, that a V on s makes ready. */
  ghost function Roused(k: Kernel, e: Event, k': Kernel, s: SemId): (q: seq<Tid>)
  {
    if e == V(s) && exists t :: BecomesReady(k, k', t) then
      var t :| BecomesReady(k, k', t);
      [t]
    else []
  }

  /** The threads that went to sleep at s before step i, in this order. */
  ghost function Sleepers(ks: seq<Kernel>, es: seq<Event>, i: nat, s: SemId): (q: seq<Tid>)
    requires i <= |es| && |ks| == |es| + 1
  {
    if i == 0 then [] else Sleepers(ks, es, i - 1, s) + Slept(ks[i - 1], es[i - 1], ks[i], s)
  }

  /** The threads that the Vs on s before step i made ready, in this order. */
  ghost function Risen(ks: seq<Kernel>, es: seq<Event>, i: nat, s: SemId): (q: seq<Tid>)
    requires i <= |es| && |ks| == |es| + 1
  {
    if i == 0 then [] else Risen(ks, es, i - 1, s) + Roused(ks[i - 1], es[i - 1], ks[i], s)
  }

  /** V makes the first sleeper ready, and nobody else. */
  lemma VRouses(k: Kernel, s: SemId)
    requires Sound(k) && s in k.sems
    ensures var k', q := DoV(k, s), k.sems[s].queue;
            s in k'.sems && Roused(k, V(s), k', s) == (if q == [] then [] else [q[0]])
            && k'.sems[s].queue == (if q == [] then [] else q[1..])
  {
    if k.sems[s].queue == [] {
      assert DoV(k, s).ready == k.ready;
    } else {
      SleeperIsTask(k, s);
      var h, k' := k.sems[s].queue[0], DoV(k, s);
      assert InQueue(k, s, h) && !OnFeet(k, h);
      forall t
        ensures IsReady(k', t) <==> IsReady(k, t) || t == h
        ensures IsReady(k, t) <==> InReady(k, t)
      {
        MakeReadyMembers(Dequeue(k, s), h, t);
      }
      assert BecomesReady(k, k', h);
    }
  }

  lemma PSleeps(k: Kernel, e: Event, s: SemId)
    requires Sound(k) && Enabled(k, e) && (e == P(s) || (e == Recheck && k.task[k.cpu.t] == InP(s)))
    ensures s in k.sems && s in Next(k, e).sems && k.sems[s].queue + Slept(k, e, Next(k, e), s) == Next(k, e).sems[s].queue
  {
    hide ReadyOk, QueuesOk, CpuOk, OnFeet, InReady, Somewhere, Nowhere;
  }

  /** No other step has to do with the queue. */
  lemma QueueStays(k: Kernel, e: Event, s: SemId)
    requires Sound(k) && Enabled(k, e) && e != V(s) && e != P(s) && !(e == Recheck && k.task[k.cpu.t] == InP(s))
    ensures s in k.sems ==> s in Next(k, e).sems && Next(k, e).sems[s].queue == k.sems[s].queue
    ensures s !in k.sems && s in Next(k, e).sems ==> Next(k, e).sems[s].queue == []
  {
    hide ReadyOk, QueuesOk, CpuOk, OnFeet, InReady, Somewhere, Nowhere, Changed;
    if e.V? && k.sems[e.s].queue != [] {
      SleeperIsTask(k, e.s);
    }
  }

  /** One step: sleepers join at the end, and a V takes the first. */
  lemma QueueStep(k: Kernel, e: Event, s: SemId)
    requires Sound(k) && Enabled(k, e)
    ensures var k' := Next(k, e);
            && (s in k.sems ==> s in k'.sems && k.sems[s].queue + Slept(k, e, k', s) == Roused(k, e, k', s) + k'.sems[s].queue)
            && (s !in k.sems ==> Slept(k, e, k', s) == [] && Roused(k, e, k', s) == [] && (s in k'.sems ==> k'.sems[s].queue == []))
  {
    if e == V(s) {
      assert Next(k, e) == DoV(k, s);
      hide Next, Enabled, Sound, IsReady;
      VRouses(k, s);
    } else if e == P(s) || (e == Recheck && k.task[k.cpu.t] == InP(s)) {
      hide Next, Sound;
      PSleeps(k, e, s);
    } else {
      hide Next, Sound;
      QueueStays(k, e, s);
    }
  }

  lemma Shifted(a: seq<Tid>, r: seq<Tid>, q: seq<Tid>, slept: seq<Tid>, roused: seq<Tid>, q': seq<Tid>)
    requires a == r + q && q + slept == roused + q'
    ensures a + slept == r + roused + q'
  {
    assert a + slept == r + (q + slept);
  }

  /**
   * In every run the threads that the Vs on a semaphore made ready are the first of those that went to sleep
   * at it, in their order, and the others are its queue.
   */
  lemma {:induction false} FirstToSleepFirstToWake(ks: seq<Kernel>, es: seq<Event>, i: nat, s: SemId)
    requires IsRun(ks, es) && i < |ks|
    ensures s in ks[i].sems ==> Sleepers(ks, es, i, s) == Risen(ks, es, i, s) + ks[i].sems[s].queue
    ensures s !in ks[i].sems ==> Sleepers(ks, es, i, s) == [] && Risen(ks, es, i, s) == []
  {
    hide Valid, Next, Enabled, Lost, Sound, Slept, Roused;
    if i > 0 {
      FirstToSleepFirstToWake(ks, es, i - 1, s);
      RunKeepsValid(ks, es, i - 1);
      QueueStep(ks[i - 1], es[i - 1], s);
      if s in ks[i - 1].sems {
        Shifted(Sleepers(ks, es, i - 1, s), Risen(ks, es, i - 1, s), ks[i - 1].sems[s].queue,
          Slept(ks[i - 1], es[i - 1], ks[i], s), Roused(ks[i - 1], es[i - 1], ks[i], s), ks[i].sems[s].queue);
      }
    }
  }

  // ----- the ready queues -----

  ghost predicate Joins(k: Kernel, k': Kernel, p: nat, t: Tid)
  {
    p < |k.ready| && p < |k'.ready| && t in k'.ready[p] && t !in k.ready[p]
  }

  /** The thread, if any, that becomes ready at priority p. */
  ghost function Came(k: Kernel, k': Kernel, p: nat): (q: seq<Tid>)
  {
    if exists t :: Joins(k, k', p, t) then
      var t :| Joins(k, k', p, t);
      [t]
    else []
  }

  /** The thread, if any, that gets the processor from the ready threads of priority p. */
  ghost function Went(k: Kernel, k': Kernel, p: nat): (q: seq<Tid>)
  {
    if k'.cpu.Runs? && k'.cpu != k.cpu && p < |k.ready| && k'.cpu.t in k.ready[p] then [k'.cpu.t] else []
  }

  /** First come, first served: what was ready and what came are what went and what is ready. */
  ghost predicate InOrder(k: Kernel, k': Kernel, p: nat)
    requires p < |k.ready| && p < |k'.ready|
  {
    k.ready[p] + Came(k, k', p) == Went(k, k', p) + k'.ready[p]
  }

  lemma CameNone(k: Kernel, k': Kernel, p: nat)
    requires p < |k.ready| && p < |k'.ready| && forall u | u in k'.ready[p] :: u in k.ready[p]
    ensures Came(k, k', p) == []
  {
  }

  lemma CameLast(k: Kernel, k': Kernel, p: nat, rest: seq<Tid>, t: Tid)
    requires p < |k.ready| && p < |k'.ready| && k'.ready[p] == rest + [t]
    requires t !in k.ready[p] && forall u | u in rest :: u in k.ready[p]
    ensures Came(k, k', p) == [t]
  {
    assert k'.ready[p][|rest|] == t;
    assert Joins(k, k', p, t);
  }

  /** Some of the ready threads have gone, and then t becomes ready. */
  lemma ReadyInOrder(k: Kernel, k1: Kernel, t: Tid, k': Kernel, p: nat)
    requires WellFormed(k1) && |k.ready| == MAX_PRIORITY && p < MAX_PRIORITY
    requires t in k1.task && t !in k.ready[p] && k.ready[p] == Went(k, k1, p) + k1.ready[p]
    requires k'.ready == MakeReady(k1, t).ready && k'.cpu == k1.cpu
    ensures InOrder(k, k', p)
  {
    forall u | u in k1.ready[p]
      ensures u in k.ready[p]
    {
      assert u in Went(k, k1, p) + k1.ready[p];
    }
    if p == k1.priority[t] {
      CameLast(k, k', p, k1.ready[p], t);
    } else {
      CameNone(k, k', p);
    }
  }

  lemma DispatchInOrder(k: Kernel, p: nat)
    requires WellFormed(k) && ReadyOk(k) && k.cpu == Idling && p < MAX_PRIORITY
    ensures k.ready[p] == Went(k, Dispatch(k), p) + Dispatch(k).ready[p]
  {
    var q := Top(k);
    if k.ready[q] != [] {
      var h := k.ready[q][0];
      assert k.ready[q] == [h] + k.ready[q][1..] && h in k.ready[q];
      assert h in k.ready[p] ==> k.priority[h] == p == q;
    }
  }

  /** The processor is given up, and the next thread gets it. */
  lemma PassedOn(k: Kernel, k1: Kernel, p: nat)
    requires WellFormed(k) && ReadyOk(k) && p < MAX_PRIORITY
    requires k1.ready == k.ready && k1.cpu == Idling && WellFormed(k1) && ReadyOk(k1)
    ensures k.ready[p] == Went(k, Dispatch(k1), p) + Dispatch(k1).ready[p]
    ensures InOrder(k, Dispatch(k1), p)
  {
    DispatchInOrder(k1, p);
    var k' := Dispatch(k1);
    assert Went(k, k', p) == Went(k1, k', p);
    forall u | u in k'.ready[p]
      ensures u in k.ready[p]
    {
      assert u in Went(k, k', p) + k'.ready[p];
    }
    CameNone(k, k', p);
  }

  lemma YieldInOrder(k: Kernel, p: nat)
    requires WellFormed(k) && ReadyOk(k) && CpuOk(k) && k.cpu.Runs? && p < MAX_PRIORITY
    ensures |DoYield(k).ready| == MAX_PRIORITY && InOrder(k, DoYield(k), p)
  {
    if k.ready[Top(k)] == [] {
      CameNone(k, k, p);
    } else {
      var k1 := k.(cpu := Idling);
      PassedOn(k, k1, p);
      hide Top, ReadyOk, InOrder;
      ReadyInOrder(k, Dispatch(k1), k.cpu.t, DoYield(k), p);
    }
  }

  lemma SleepInOrder(k: Kernel, s: SemId, p: nat)
    requires WellFormed(k) && ReadyOk(k) && CpuOk(k) && k.cpu.Runs? && s in k.sems && p < MAX_PRIORITY
    ensures |TryP(k, s).ready| == MAX_PRIORITY && InOrder(k, TryP(k, s), p)
  {
    if k.sems[s].value == 0 {
      var k1 := Enqueue(k.(cpu := Idling), k.cpu.t, s);
      EnqueueReadyOk(k.(cpu := Idling), k.cpu.t, s);
      PassedOn(k, k1, p);
    } else {
      CameNone(k, TryP(k, s), p);
    }
  }

  lemma FinishInOrder(k: Kernel, p: nat)
    requires WellFormed(k) && ReadyOk(k) && CpuOk(k) && k.cpu.Runs? && p < MAX_PRIORITY
    ensures |DoFinish(k).ready| == MAX_PRIORITY && InOrder(k, DoFinish(k), p)
  {
    var k1 := k.(cpu := Idling, task := k.task[k.cpu.t := Finished]);
    assert ReadyOk(k1);
    PassedOn(k, k1, p);
  }

  lemma VInOrder(k: Kernel, s: SemId, p: nat)
    requires Sound(k) && s in k.sems && p < MAX_PRIORITY
    ensures WellFormed(k) && |DoV(k, s).ready| == MAX_PRIORITY && InOrder(k, DoV(k, s), p)
  {
    if k.sems[s].queue == [] {
      CameNone(k, DoV(k, s), p);
    } else {
      SleeperIsTask(k, s);
      var h := k.sems[s].queue[0];
      assert InQueue(k, s, h) && !OnFeet(k, h);
      assert h !in k.ready[p];
      ReadyInOrder(k, Dequeue(k, s), h, DoV(k, s), p);
    }
  }

  lemma ForkInOrder(k: Kernel, t: Tid, q: nat, p: nat)
    requires WellFormed(k) && ReadyOk(k) && t in k.task && k.task[t] == JustCreated && q < MAX_PRIORITY && p < MAX_PRIORITY
    ensures |DoFork(k, t, q).ready| == MAX_PRIORITY && InOrder(k, DoFork(k, t, q), p)
  {
    ReadyInOrder(k, k.(priority := k.priority[t := q], task := k.task[t := Working]), t, DoFork(k, t, q), p);
  }

  /** Every step but a donation. */
  lemma StepInOrder(k: Kernel, e: Event, p: nat)
    requires Sound(k) && Enabled(k, e) && !e.Donate? && p < MAX_PRIORITY
    ensures |k.ready| == MAX_PRIORITY && |Next(k, e).ready| == MAX_PRIORITY && InOrder(k, Next(k, e), p)
  {
    var lost :| Placed(k, lost);
    assert WellFormed(k) && ReadyOk(k) && CpuOk(k);
    hide WellFormed, ReadyOk, CpuOk, Placed, InOrder, DoYield, TryP, DoV, DoFinish, DoFork, Dispatch;
    match e
    case Create(t) => SameInOrder(k, Next(k, e), p);
    case Fork(t, q) => ForkInOrder(k, t, q, p);
    case NewSem(s, n) => SameInOrder(k, Next(k, e), p);
    case Yield => YieldInOrder(k, p);
    case P(s) => SleepInOrder(k, s, p);
    case Recheck => SleepInOrder(k, k.task[k.cpu.t].s, p);
    case V(s) => VInOrder(k, s, p);
    case Finish => FinishInOrder(k, p);
    case Resume => PassedOn(k, k, p);
    case Donate(t) =>
  }

  lemma SameInOrder(k: Kernel, k': Kernel, p: nat)
    requires p < |k.ready| && k'.ready == k.ready && k'.cpu == k.cpu
    ensures InOrder(k, k', p)
  {
    CameNone(k, k', p);
  }

  ghost function Arrivals(ks: seq<Kernel>, i: nat, j: nat, p: nat): (q: seq<Tid>)
    requires i <= j < |ks|
  {
    if i == j then [] else Arrivals(ks, i, j - 1, p) + Came(ks[j - 1], ks[j], p)
  }

  ghost function Departures(ks: seq<Kernel>, i: nat, j: nat, p: nat): (q: seq<Tid>)
    requires i <= j < |ks|
  {
    if i == j then [] else Departures(ks, i, j - 1, p) + Went(ks[j - 1], ks[j], p)
  }

  /**
   * In every part of every run without a donation the threads of a priority get the processor in the order in
   * which they became ready: those that were ready and those that came are those that went and those that are.
   */
  lemma {:induction false} FirstComeFirstServed(ks: seq<Kernel>, es: seq<Event>, i: nat, j: nat, p: nat)
    requires IsRun(ks, es) && i <= j < |ks| && p < MAX_PRIORITY && forall n | i <= n < j :: !es[n].Donate?
    ensures |ks[i].ready| == MAX_PRIORITY && |ks[j].ready| == MAX_PRIORITY
    ensures ks[i].ready[p] + Arrivals(ks, i, j, p) == Departures(ks, i, j, p) + ks[j].ready[p]
    decreases j
  {
    hide Next, Enabled, Lost, Sound, Came, Went, ReadyOk, QueuesOk, CpuOk, Counted, Somewhere, Nowhere;
    RunKeepsValid(ks, es, i);
    if i < j {
      FirstComeFirstServed(ks, es, i, j - 1, p);
      RunKeepsValid(ks, es, j - 1);
      StepInOrder(ks[j - 1], es[j - 1], p);
      Shifted(ks[i].ready[p] + Arrivals(ks, i, j - 1, p), Departures(ks, i, j - 1, p), ks[j - 1].ready[p],
        Came(ks[j - 1], ks[j], p), Went(ks[j - 1], ks[j], p), ks[j].ready[p]);
      assert ks[i].ready[p] + Arrivals(ks, i, j - 1, p) + Came(ks[j - 1], ks[j], p) == ks[i].ready[p] + Arrivals(ks, i, j, p);
    }
  }

  // ----- the processor -----

  ghost predicate NobodyIsReady(k: Kernel)
  {
    forall p | 0 <= p < |k.ready| :: k.ready[p] == []
  }

  /** The first ready thread of the highest priority that has one. */
  ghost predicate IsNext(k: Kernel, t: Tid)
  {
    exists p | 0 <= p < |k.ready| ::
      k.ready[p] != [] && k.ready[p][0] == t && forall q | p < q < |k.ready| :: k.ready[q] == []
  }

  ghost predicate GoesToNext(k: Kernel, cpu: Cpu)
  {
    if NobodyIsReady(k) then cpu == Idling else cpu.Runs? && IsNext(k, cpu.t)
  }

  lemma DispatchGoesToNext(k: Kernel, k1: Kernel)
    requires |k.ready| == MAX_PRIORITY && k1.ready == k.ready
    ensures GoesToNext(k, Dispatch(k1).cpu)
  {
    var p := Top(k1);
    assert k.ready[p] != [] ==> IsNext(k, k.ready[p][0]);
  }

  /**
   * In every run the processor changes hands exactly when its thread finishes, goes to sleep or yields to a ready
   * thread, or when an idle machine looks again; it then goes to the first ready thread of the highest priority,
   * and stays idle only without one.
   */
  lemma ProcessorGoesToNext(ks: seq<Kernel>, es: seq<Event>, i: nat)
    requires IsRun(ks, es) && i < |es|
    ensures var k, e, k' := ks[i], es[i], ks[i + 1];
            if e == Finish || e == Resume || exists s :: GoesToSleep(k, e, k', s) then GoesToNext(k, k'.cpu)
            else if e == Yield && !NobodyIsReady(k) then GoesToNext(k, k'.cpu)
            else k'.cpu == k.cpu
  {
    RunKeepsValid(ks, es, i);
    hide IsRun, Valid, Lost;
    StepGoesToNext(ks[i], es[i]);
  }

  lemma StepGoesToNext(k: Kernel, e: Event)
    requires Sound(k) && Enabled(k, e)
    ensures var k' := Next(k, e);
            if e == Finish || e == Resume || exists s :: GoesToSleep(k, e, k', s) then GoesToNext(k, k'.cpu)
            else if e == Yield && !NobodyIsReady(k) then GoesToNext(k, k'.cpu)
            else k'.cpu == k.cpu
  {
    hide ReadyOk, QueuesOk, OnFeet, InReady, Somewhere, Nowhere, Changed, GoesToNext;
    var k' := Next(k, e);
    match e
    case Finish => DispatchGoesToNext(k, k.(cpu := Idling, task := k.task[k.cpu.t := Finished]));
    case Resume => DispatchGoesToNext(k, k);
    case Yield =>
      DispatchGoesToNext(k, k.(cpu := Idling));
      NobodyIsTop(k);
    case P(s) => SleepGoesToNext(k, e, s);
    case Recheck => SleepGoesToNext(k, e, k.task[k.cpu.t].s);
    case V(s) =>
      if k.sems[s].queue != [] {
        SleeperIsTask(k, s);
      }
    case _ =>
  }

  lemma NobodyIsTop(k: Kernel)
    requires |k.ready| == MAX_PRIORITY
    ensures NobodyIsReady(k) <==> k.ready[Top(k)] == []
  {
  }

  lemma SleepGoesToNext(k: Kernel, e: Event, s: SemId)
    requires Sound(k) && Enabled(k, e) && (e == P(s) || (e == Recheck && k.task[k.cpu.t] == InP(s)))
    ensures var k' := Next(k, e);
            if GoesToSleep(k, e, k', s) then GoesToNext(k, k'.cpu)
            else k'.cpu == k.cpu && forall r :: !GoesToSleep(k, e, k', r)
  {
    hide ReadyOk, QueuesOk, CpuOk, OnFeet, InReady, Somewhere, Nowhere, GoesToNext;
    if k.sems[s].value == 0 {
      DispatchGoesToNext(k, Enqueue(k.(cpu := Idling), k.cpu.t, s));
    }
  }
}
