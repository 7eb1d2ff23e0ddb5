/**
 * threads/scheduler.cc, threads/thread.cc and threads/synch.cc (Semaphore) as one
 * step system over an unbounded set of threads.  A step is a stretch of kernel
 * code in which interrupts are not re-enabled; a context switch is part of the
 * step that causes it.
 */
module Kernels {

  type Tid = nat
  type SemId = nat

  const MAX_PRIORITY := 3

  /**
   * What a thread is in the middle of.  InP(s): in the loop of Semaphore::P,
   * having slept at least once, so that it has to look at the value again.
   */
  datatype Task = JustCreated | Working | InP(s: SemId) | Finished

  datatype Cpu = Runs(t: Tid) | Idling

  datatype Sem = Sem(value: nat, queue: seq<Tid>)

  datatype Kernel = Kernel(
    cpu: Cpu,
    ready: seq<seq<Tid>>,
    priority: map<Tid, nat>,
    task: map<Tid, Task>,
    sems: map<SemId, Sem>)

  // ----- the scheduler -----

  /** The queue that FindNextToRun looks at: the highest that is not empty, or queue 0. */
  function TopQueue(ready: seq<seq<Tid>>, p: nat): (q: nat)
    requires p < |ready|
    ensures q <= p && (q == 0 || ready[q] != []) && forall r | q < r <= p :: ready[r] == []
  {
    if p > 0 && ready[p] == [] then TopQueue(ready, p - 1) else p
  }

  ghost predicate WellFormed(k: Kernel)
  {
    && |k.ready| == MAX_PRIORITY
    && k.priority.Keys == k.task.Keys
    && forall t | t in k.priority :: k.priority[t] < MAX_PRIORITY
  }

  function Top(k: Kernel): (q: nat)
    requires |k.ready| == MAX_PRIORITY
    ensures q < MAX_PRIORITY
  {
    TopQueue(k.ready, MAX_PRIORITY - 1)
  }

  /** Scheduler::ReadyToRun */
  function MakeReady(k: Kernel, t: Tid): (k': Kernel)
    requires |k.ready| == MAX_PRIORITY && t in k.priority && k.priority[t] < MAX_PRIORITY
  {
    var p := k.priority[t];
    k.(ready := k.ready[p := k.ready[p] + [t]])
  }

  /** Scheduler::FindNextToRun, and Scheduler::Run of what it found; with none the machine idles. */
  function Dispatch(k: Kernel): (k': Kernel)
    requires |k.ready| == MAX_PRIORITY
  {
    var p := Top(k);
    if k.ready[p] == [] then k.(cpu := Idling)
    else k.(cpu := Runs(k.ready[p][0]), ready := k.ready[p := k.ready[p][1..]])
  }

  // ----- Scheduler::ChangeQueuePriority -----

  /** The place of h in a queue. */
  function First(q: seq<Tid>, h: Tid): (i: nat)
    requires h in q
    ensures i < |q| && q[i] == h && forall j | 0 <= j < i :: q[j] != h
  {
    if q[0] == h then 0 else 1 + First(q[1..], h)
  }

  lemma {:induction false} FirstKept(q: seq<Tid>, x: Tid, h: Tid)
    requires h in q
    ensures h in q + [x] && First(q + [x], h) == First(q, h)
  {
    if q[0] != h {
      FirstKept(q[1..], x, h);
      assert (q + [x])[1..] == q[1..] + [x];
    }
  }

  datatype Rotated = Rotated(queue: seq<Tid>, into: seq<Tid>)

  /** The loop: threads go from the front of the queue to its back, t to the other queue, until h comes, which goes nowhere. */
  function Rotate(queue: seq<Tid>, into: seq<Tid>, h: Tid, t: Tid): (r: Rotated)
    requires h in queue && h != t
    decreases First(queue, h)
  {
    var x, rest := queue[0], queue[1..];
    if x == h then Rotated(rest, into)
    else if x == t then Rotate(rest, [t] + into, h, t)
    else
      FirstKept(rest, x, h);
      Rotate(rest + [x], into, h, t)
  }

  lemma RotateStep(queue: seq<Tid>, into: seq<Tid>, h: Tid, t: Tid)
    requires h in queue && h != t
    ensures var x, rest := queue[0], queue[1..];
            if x == h then Rotate(queue, into, h, t) == Rotated(rest, into)
            else if x == t then h in rest && First(rest, h) < First(queue, h) && Rotate(queue, into, h, t) == Rotate(rest, [t] + into, h, t)
            else h in rest + [x] && First(rest + [x], h) < First(queue, h) && Rotate(queue, into, h, t) == Rotate(rest + [x], into, h, t)
  {
    if queue[0] != h {
      FirstKept(queue[1..], queue[0], h);
    }
  }

  /** The ready queues after the change of t from priority i to priority p; the source has no test for an empty queue. */
  function Changed(ready: seq<seq<Tid>>, t: Tid, i: nat, p: nat): (r: seq<seq<Tid>>)
    requires |ready| == MAX_PRIORITY && i < MAX_PRIORITY && p < MAX_PRIORITY && i != p && ready[i] != []
    ensures |r| == MAX_PRIORITY
  {
    var h, rest := ready[i][0], ready[i][1..];
    if h == t then ready[i := rest][p := [t] + ready[p]]
    else
      var r := Rotate(rest + [h], ready[p], h, t);
      ready[i := r.queue][p := r.into]
  }

  /** All the ready threads. */
  function Ready(ready: seq<seq<Tid>>): (m: multiset<Tid>)
    requires |ready| == MAX_PRIORITY
  {
    multiset(ready[0]) + multiset(ready[1]) + multiset(ready[2])
  }

  /** Two queues replaced: what they lose is what the ready threads lose. */
  lemma ReadyUpdated(ready: seq<seq<Tid>>, i: nat, p: nat, x: seq<Tid>, y: seq<Tid>, gone: multiset<Tid>)
    requires |ready| == MAX_PRIORITY && i < MAX_PRIORITY && p < MAX_PRIORITY && i != p
    requires multiset(x) + multiset(y) + gone == multiset(ready[i]) + multiset(ready[p])
    ensures Ready(ready[i := x][p := y]) + gone == Ready(ready)
  {
    var others := multiset(ready[3 - i - p]);
    assert Ready(ready) == multiset(ready[i]) + multiset(ready[p]) + others;
    assert Ready(ready[i := x][p := y]) == multiset(x) + multiset(y) + others;
    Regroup(multiset(x) + multiset(y), others, gone);
  }

  lemma Regroup(a: multiset<Tid>, b: multiset<Tid>, c: multiset<Tid>)
    ensures (a + b) + c == (a + c) + b
  {
  }

  lemma {:induction false} RotateLoses(queue: seq<Tid>, into: seq<Tid>, h: Tid, t: Tid)
    requires h in queue && h != t
    ensures var r := Rotate(queue, into, h, t);
            multiset(r.queue) + multiset(r.into) + multiset{h} == multiset(queue) + multiset(into)
    decreases First(queue, h)
  {
    var x, rest := queue[0], queue[1..];
    assert queue == [x] + rest;
    if x == t {
      RotateLoses(rest, [t] + into, h, t);
    } else if x != h {
      FirstKept(rest, x, h);
      RotateLoses(rest + [x], into, h, t);
    }
  }

  /** The ready threads are the same after the change exactly when t is at the head of its queue; otherwise the head is lost. */
  lemma ChangeIff(ready: seq<seq<Tid>>, t: Tid, i: nat, p: nat)
    requires |ready| == MAX_PRIORITY && i < MAX_PRIORITY && p < MAX_PRIORITY && i != p && ready[i] != []
    ensures Ready(Changed(ready, t, i, p)) == Ready(ready) <==> ready[i][0] == t
    ensures ready[i][0] != t ==> Ready(Changed(ready, t, i, p)) + multiset{ready[i][0]} == Ready(ready)
  {
    var h, rest := ready[i][0], ready[i][1..];
    assert ready[i] == [h] + rest;
    if h == t {
      ReadyUpdated(ready, i, p, rest, [t] + ready[p], multiset{});
    } else {
      hide Ready, Rotate;
      var r := Rotate(rest + [h], ready[p], h, t);
      RotateLoses(rest + [h], ready[p], h, t);
      ReadyUpdated(ready, i, p, r.queue, r.into, multiset{h});
      OneMore(Ready(Changed(ready, t, i, p)), h);
    }
  }

  lemma OneMore(a: multiset<Tid>, h: Tid)
    ensures a + multiset{h} != a
  {
    assert (a + multiset{h})[h] == a[h] + 1;
  }

  // ----- where the threads are -----

  predicate Active(a: Task)
  {
    a.Working? || a.InP?
  }

  ghost predicate InReady(k: Kernel, t: Tid)
    requires |k.ready| == MAX_PRIORITY
  {
    exists p | 0 <= p < MAX_PRIORITY :: t in k.ready[p]
  }

  ghost predicate OnFeet(k: Kernel, t: Tid)
    requires |k.ready| == MAX_PRIORITY
  {
    k.cpu == Runs(t) || InReady(k, t)
  }

  ghost predicate InQueue(k: Kernel, s: SemId, t: Tid)
  {
    s in k.sems && t in k.sems[s].queue
  }

  ghost predicate NoDup(q: seq<Tid>)
  {
    forall i, j | 0 <= i < j < |q| :: q[i] != q[j]
  }

  /** Ready threads: once each, at their priority, and not running. */
  ghost predicate ReadyOk(k: Kernel)
    requires WellFormed(k)
  {
    && (forall p | 0 <= p < MAX_PRIORITY :: NoDup(k.ready[p]))
    && (forall p, t | 0 <= p < MAX_PRIORITY && t in k.ready[p] ::
          t in k.task && Active(k.task[t]) && k.priority[t] == p && k.cpu != Runs(t))
  }

  /** Sleeping threads: once each, in the queue of the semaphore they wait for, and nowhere else. */
  ghost predicate QueuesOk(k: Kernel)
    requires WellFormed(k)
  {
    && (forall s | s in k.sems :: NoDup(k.sems[s].queue))
    && (forall s, t | InQueue(k, s, t) :: t in k.task && k.task[t] == InP(s) && !OnFeet(k, t))
  }

  ghost predicate CpuOk(k: Kernel)
  {
    k.cpu.Runs? ==> k.cpu.t in k.task && Active(k.task[k.cpu.t])
  }

  ghost predicate Somewhere(k: Kernel, t: Tid)
    requires WellFormed(k) && t in k.task
  {
    match k.task[t]
    case JustCreated => true
    case Finished => true
    case Working => OnFeet(k, t)
    case InP(s) => OnFeet(k, t) || InQueue(k, s, t)
  }

  ghost predicate Nowhere(k: Kernel, t: Tid)
    requires WellFormed(k)
  {
    !OnFeet(k, t) && forall s :: !InQueue(k, s, t)
  }

  /** The threads of `hole` are in the middle of being moved, or lost; all others are in their place. */
  ghost predicate Placed(k: Kernel, hole: set<Tid>)
  {
    && WellFormed(k) && ReadyOk(k) && QueuesOk(k) && CpuOk(k)
    && (forall t | t in k.task && t !in hole :: Somewhere(k, t))
    && (forall t | t in hole :: t in k.task && Active(k.task[t]) && Nowhere(k, t))
  }

  // ----- moving threads -----

  lemma OnFeetActive(k: Kernel, t: Tid)
    requires WellFormed(k) && ReadyOk(k) && CpuOk(k) && OnFeet(k, t)
    ensures t in k.task && Active(k.task[t])
  {
  }

  /** Threads moved between the processor, the ready queues and the hole. */
  lemma Shuffled(k: Kernel, hole: set<Tid>, k': Kernel, hole': set<Tid>)
    requires Placed(k, hole) && WellFormed(k') && ReadyOk(k')
    requires k'.sems == k.sems && k'.task == k.task
    requires forall t :: OnFeet(k', t) || t in hole' <==> OnFeet(k, t) || t in hole
    requires forall t | t in hole' :: !OnFeet(k', t)
    ensures Placed(k', hole')
  {
    forall t | OnFeet(k, t) || t in hole
      ensures t in k.task && Active(k.task[t]) && forall s :: !InQueue(k, s, t)
    {
      if OnFeet(k, t) {
        OnFeetActive(k, t);
      }
    }
    hide OnFeet;
    assert forall s, t :: InQueue(k', s, t) <==> InQueue(k, s, t);
    assert CpuOk(k') by {
      if k'.cpu.Runs? {
        CpuOnFeet(k');
      }
    }
    forall t | t in k'.task && t !in hole'
      ensures Somewhere(k', t)
    {
      if t !in hole {
        assert Somewhere(k, t);
      }
    }
  }

  lemma CpuOnFeet(k: Kernel)
    requires |k.ready| == MAX_PRIORITY && k.cpu.Runs?
    ensures OnFeet(k, k.cpu.t)
  {
  }

  /** The running thread gives up the processor. */
  lemma LeaveCpu(k: Kernel, lost: set<Tid>, t: Tid)
    requires Placed(k, lost) && k.cpu == Runs(t)
    ensures t !in lost && Placed(k.(cpu := Idling), lost + {t})
  {
    CpuOnFeet(k);
    var k' := k.(cpu := Idling);
    assert forall u :: InReady(k', u) <==> InReady(k, u);
    Shuffled(k, lost, k', lost + {t});
  }

  /** What Dispatch leaves ready: everything but the thread it takes. */
  lemma DispatchReady(k: Kernel, u: Tid)
    requires WellFormed(k) && ReadyOk(k) && k.ready[Top(k)] != []
    ensures forall q | 0 <= q < MAX_PRIORITY ::
      u in Dispatch(k).ready[q] <==> u in k.ready[q] && Dispatch(k).cpu != Runs(u)
    ensures InReady(Dispatch(k), u) <==> InReady(k, u) && Dispatch(k).cpu != Runs(u)
    ensures Dispatch(k).cpu == Runs(u) ==> u in k.ready[Top(k)] && InReady(k, u)
  {
    var p := Top(k);
    assert k.ready[p] == [k.ready[p][0]] + k.ready[p][1..];
  }

  lemma DispatchReadyOk(k: Kernel)
    requires WellFormed(k) && ReadyOk(k) && k.ready[Top(k)] != []
    ensures ReadyOk(Dispatch(k))
  {
    forall u { DispatchReady(k, u); }
    assert NoDup(k.ready[Top(k)][1..]);
  }

  /** Dispatching moves one ready thread to the processor, if there is one. */
  lemma DispatchPlaces(k: Kernel, hole: set<Tid>)
    requires Placed(k, hole) && k.cpu == Idling
    ensures Placed(Dispatch(k), hole)
  {
    var k' := Dispatch(k);
    if k.ready[Top(k)] != [] {
      DispatchReadyOk(k);
      forall u
        ensures OnFeet(k', u) <==> OnFeet(k, u)
      {
        DispatchReady(k, u);
      }
      Shuffled(k, hole, k', hole);
    }
  }

  lemma MakeReadyMembers(k: Kernel, t: Tid, u: Tid)
    requires WellFormed(k) && t in k.task
    ensures forall q | 0 <= q < MAX_PRIORITY ::
      u in MakeReady(k, t).ready[q] <==> u in k.ready[q] || (q == k.priority[t] && u == t)
    ensures InReady(MakeReady(k, t), u) <==> InReady(k, u) || u == t
  {
    if u == t {
      assert u in MakeReady(k, t).ready[k.priority[t]];
    }
  }

  lemma MakeReadyOk(k: Kernel, t: Tid)
    requires WellFormed(k) && ReadyOk(k) && t in k.task && Active(k.task[t]) && !OnFeet(k, t)
    ensures ReadyOk(MakeReady(k, t))
  {
    forall u { MakeReadyMembers(k, t, u); }
    assert NoDup(k.ready[k.priority[t]] + [t]);
  }

  /** A thread in the middle of a move becomes ready. */
  lemma ReadyPlaces(k: Kernel, hole: set<Tid>, t: Tid)
    requires Placed(k, hole) && t in hole
    ensures Placed(MakeReady(k, t), hole - {t})
  {
    var k' := MakeReady(k, t);
    MakeReadyOk(k, t);
    forall u
      ensures OnFeet(k', u) <==> OnFeet(k, u) || u == t
    {
      MakeReadyMembers(k, t, u);
    }
    Shuffled(k, hole, k', hole - {t});
  }

  /** A thread in the middle of a move goes to sleep on a semaphore. */
  function Enqueue(k: Kernel, t: Tid, s: SemId): (k': Kernel)
    requires s in k.sems
  {
    k.(task := k.task[t := InP(s)], sems := k.sems[s := k.sems[s].(queue := k.sems[s].queue + [t])])
  }

  lemma EnqueuePlaces(k: Kernel, hole: set<Tid>, t: Tid, s: SemId)
    requires Placed(k, hole) && t in hole && s in k.sems
    ensures Placed(Enqueue(k, t, s), hole - {t})
  {
    var k' := Enqueue(k, t, s);
    assert !InQueue(k, s, t);
    assert NoDup(k.sems[s].queue + [t]);
    assert forall r, u :: InQueue(k', r, u) <==> InQueue(k, r, u) || (r == s && u == t);
    forall u
      ensures OnFeet(k', u) <==> OnFeet(k, u)
    {
      assert InReady(k', u) <==> InReady(k, u);
    }
    EnqueueReadyOk(k, t, s);
    hide OnFeet, ReadyOk, InQueue;
    forall u | u in k'.task && u !in hole - {t}
      ensures Somewhere(k', u)
    {
      if u != t {
        assert Somewhere(k, u);
      }
    }
  }

  lemma EnqueueReadyOk(k: Kernel, t: Tid, s: SemId)
    requires WellFormed(k) && ReadyOk(k) && CpuOk(k) && t in k.task && s in k.sems
    ensures WellFormed(Enqueue(k, t, s)) && ReadyOk(Enqueue(k, t, s)) && CpuOk(Enqueue(k, t, s))
  {
  }

  /** The first sleeper leaves the queue of a semaphore. */
  function Dequeue(k: Kernel, s: SemId): (k': Kernel)
    requires s in k.sems && k.sems[s].queue != []
  {
    k.(sems := k.sems[s := k.sems[s].(queue := k.sems[s].queue[1..])])
  }

  lemma DequeuePlaces(k: Kernel, lost: set<Tid>, s: SemId)
    requires Placed(k, lost) && s in k.sems && k.sems[s].queue != []
    ensures k.sems[s].queue[0] !in lost && Placed(Dequeue(k, s), lost + {k.sems[s].queue[0]})
  {
    var k', t := Dequeue(k, s), k.sems[s].queue[0];
    assert k.sems[s].queue == [t] + k.sems[s].queue[1..];
    assert InQueue(k, s, t);
    forall r, u
      ensures InQueue(k', r, u) <==> InQueue(k, r, u) && u != t
    {
      if r != s {
        assert InQueue(k, r, t) ==> InP(r) == InP(s);
      }
    }
    forall u
      ensures OnFeet(k', u) <==> OnFeet(k, u)
    {
      assert InReady(k', u) <==> InReady(k, u);
    }
    assert ReadyOk(k');
    hide OnFeet, ReadyOk, InQueue;
    forall u | u in k'.task && u !in lost + {t}
      ensures Somewhere(k', u)
    {
      assert Somewhere(k, u);
    }
  }

  // ----- counting -----

  /** The threads that have been woken from the queue of s and have yet to look at its value. */
  ghost function Woken(k: Kernel, s: SemId): (w: set<Tid>)
  {
    set t | t in k.task && k.task[t] == InP(s) && !InQueue(k, s, t)
  }

  /** While threads sleep, every unit of the value has a woken thread coming for it. */
  ghost predicate SemOk(k: Kernel, s: SemId)
    requires s in k.sems
  {
    k.sems[s].queue != [] ==> k.sems[s].value <= |Woken(k, s)|
  }

  ghost predicate Counted(k: Kernel)
  {
    forall s | s in k.sems :: SemOk(k, s)
  }

  /** All threads but the lost ones are in their place. */
  ghost predicate Valid(k: Kernel, lost: set<Tid>)
  {
    Placed(k, lost) && Counted(k)
  }

  /** A state that the kernel can be in, whatever has been lost. */
  ghost predicate Sound(k: Kernel)
  {
    exists lost :: Placed(k, lost)
  }

  lemma SleeperIsTask(k: Kernel, s: SemId)
    requires Sound(k) && s in k.sems && k.sems[s].queue != []
    ensures WellFormed(k) && k.sems[s].queue[0] in k.task
  {
    assert InQueue(k, s, k.sems[s].queue[0]);
  }

  // ----- the steps -----

  datatype Event =
    | Create(t: Tid)                        // new Thread
    | Fork(t: Tid, p: nat)                  // Thread::Fork
    | NewSem(s: SemId, initial: nat)        // new Semaphore
    | Yield                                 // Thread::Yield, called or on a time slice
    | P(s: SemId)                           // Semaphore::P from its entry
    | Recheck                               // the loop of P after Sleep returned
    | V(s: SemId)                           // Semaphore::V, by the thread or an interrupt handler
    | Finish                                // Thread::Finish
    | Resume                                // the loop of Thread::Sleep after Interrupt::Idle
    | Donate(t: Tid)                        // Lock::Acquire raises the priority of the holder t

  ghost predicate CurrentIs(k: Kernel, a: Task)
  {
    k.cpu.Runs? && k.cpu.t in k.task && k.task[k.cpu.t] == a
  }

  ghost predicate Rechecking(k: Kernel)
  {
    k.cpu.Runs? && k.cpu.t in k.task && k.task[k.cpu.t].InP? && k.task[k.cpu.t].s in k.sems
  }

  ghost predicate Enabled(k: Kernel, e: Event)
  {
    match e
    case Create(t) => CurrentIs(k, Working) && t !in k.task
    case Fork(t, p) => CurrentIs(k, Working) && t in k.task && k.task[t] == JustCreated && p < MAX_PRIORITY
    case NewSem(s, _) => CurrentIs(k, Working) && s !in k.sems
    case Yield => CurrentIs(k, Working)
    case P(s) => CurrentIs(k, Working) && s in k.sems
    case Recheck => Rechecking(k)
    case V(s) => s in k.sems && (CurrentIs(k, Working) || k.cpu == Idling)
    case Finish => CurrentIs(k, Working)
    case Resume => k.cpu == Idling
    case Donate(t) => CanDonate(k, t) && k.ready[k.priority[t]] != []
  }

  /** The running thread finds that t, which has not finished, holds the lock at a lower priority. */
  ghost predicate CanDonate(k: Kernel, t: Tid)
  {
    && CurrentIs(k, Working) && k.cpu != Runs(t) && t in k.task && Active(k.task[t])
    && WellFormed(k) && k.priority[t] < k.priority[k.cpu.t]
  }

  /** t is the first ready thread of its priority. */
  ghost predicate AtHead(k: Kernel, t: Tid)
    requires WellFormed(k) && t in k.task
  {
    k.ready[k.priority[t]] != [] && k.ready[k.priority[t]][0] == t
  }

  /** ChangeQueuePriority, and setPriority. */
  ghost function DoDonate(k: Kernel, t: Tid): (k': Kernel)
    requires CanDonate(k, t) && k.ready[k.priority[t]] != []
  {
    var p := k.priority[k.cpu.t];
    k.(ready := Changed(k.ready, t, k.priority[t], p), priority := k.priority[t := p])
  }

  /** The threads that a step loses. */
  ghost function LostBy(k: Kernel, e: Event): (lost: set<Tid>)
    requires Sound(k) && Enabled(k, e)
  {
    if e.Donate? && !AtHead(k, e.t) then {k.ready[k.priority[e.t]][0]} else {}
  }

  ghost function DoFork(k: Kernel, t: Tid, p: nat): (k': Kernel)
    requires WellFormed(k) && t in k.task && p < MAX_PRIORITY
  {
    MakeReady(k.(priority := k.priority[t := p], task := k.task[t := Working]), t)
  }

  /** The next thread is looked for before this one goes back to its queue. */
  ghost function DoYield(k: Kernel): (k': Kernel)
    requires WellFormed(k) && k.cpu.Runs? && k.cpu.t in k.task
  {
    if k.ready[Top(k)] == [] then k else MakeReady(Dispatch(k.(cpu := Idling)), k.cpu.t)
  }

  /** One pass of the loop of P. */
  ghost function TryP(k: Kernel, s: SemId): (k': Kernel)
    requires WellFormed(k) && k.cpu.Runs? && k.cpu.t in k.task && s in k.sems
  {
    var t, m := k.cpu.t, k.sems[s];
    if m.value == 0 then Dispatch(Enqueue(k.(cpu := Idling), t, s))
    else k.(task := k.task[t := Working],
            sems := k.sems[s := m.(value := m.value - 1)])
  }

  ghost function AddOne(k: Kernel, s: SemId): (k': Kernel)
    requires s in k.sems
  {
    var m := k.sems[s];
    k.(sems := k.sems[s := m.(value := m.value + 1)])
  }

  /** V wakes a sleeper and increments as well. */
  ghost function DoV(k: Kernel, s: SemId): (k': Kernel)
    requires Sound(k) && s in k.sems
  {
    var q := k.sems[s].queue;
    if q == [] then AddOne(k, s)
    else
      SleeperIsTask(k, s);
      AddOne(MakeReady(Dequeue(k, s), q[0]), s)
  }

  ghost function DoFinish(k: Kernel): (k': Kernel)
    requires WellFormed(k) && k.cpu.Runs?
  {
    Dispatch(k.(cpu := Idling, task := k.task[k.cpu.t := Finished]))
  }

  ghost function Next(k: Kernel, e: Event): (k': Kernel)
    requires Sound(k) && Enabled(k, e)
  {
    match e
    case Create(t) => k.(task := k.task[t := JustCreated], priority := k.priority[t := 0])
    case Fork(t, p) => DoFork(k, t, p)
    case NewSem(s, n) => k.(sems := k.sems[s := Sem(n, [])])
    case Yield => DoYield(k)
    case P(s) => TryP(k, s)
    case Recheck => TryP(k, k.task[k.cpu.t].s)
    case V(s) => DoV(k, s)
    case Finish => DoFinish(k)
    case Resume => Dispatch(k)
    case Donate(t) => DoDonate(k, t)
  }

  // ----- every step keeps every thread in its place -----

  /** A change to tasks and priorities of threads that are in no queue. */
  lemma Relabelled(k: Kernel, lost: set<Tid>, k': Kernel, t: Tid, hole: set<Tid>)
    requires Placed(k, lost) && WellFormed(k')
    requires k'.ready == k.ready && k'.cpu == k.cpu && k'.sems == k.sems
    requires t in k'.task && !OnFeet(k, t) && (t in k.task ==> !Active(k.task[t]))
    requires k'.task == k.task[t := k'.task[t]] && k'.priority == k.priority[t := k'.priority[t]]
    requires hole == if Active(k'.task[t]) then lost + {t} else lost
    ensures Placed(k', hole)
  {
    SameOnFeet(k, k');
    assert forall r, u :: InQueue(k', r, u) <==> InQueue(k, r, u);
    assert t !in lost && forall r :: !InQueue(k, r, t);
    RelabelledReady(k, k', t);
    hide OnFeet, ReadyOk, InQueue;
    forall u | u in k'.task && u !in hole
      ensures Somewhere(k', u)
    {
      if u != t {
        assert Somewhere(k, u);
      }
    }
  }

  lemma SameOnFeet(k: Kernel, k': Kernel)
    requires |k.ready| == MAX_PRIORITY && k'.ready == k.ready && k'.cpu == k.cpu
    ensures forall u :: OnFeet(k', u) <==> OnFeet(k, u)
  {
    forall u
      ensures OnFeet(k', u) <==> OnFeet(k, u)
    {
      assert InReady(k', u) <==> InReady(k, u);
    }
  }

  lemma RelabelledReady(k: Kernel, k': Kernel, t: Tid)
    requires WellFormed(k) && ReadyOk(k) && CpuOk(k) && WellFormed(k')
    requires k'.ready == k.ready && k'.cpu == k.cpu && !OnFeet(k, t) && t in k'.task
    requires k'.task == k.task[t := k'.task[t]] && k'.priority == k.priority[t := k'.priority[t]]
    ensures ReadyOk(k') && CpuOk(k')
  {
    assert forall p | 0 <= p < MAX_PRIORITY && t in k.ready[p] :: InReady(k, t);
  }

  lemma CreatePlaces(k: Kernel, lost: set<Tid>, t: Tid)
    requires Placed(k, lost) && t !in k.task
    ensures Placed(k.(task := k.task[t := JustCreated], priority := k.priority[t := 0]), lost)
  {
    NotOnFeet(k, lost, t);
    Relabelled(k, lost, k.(task := k.task[t := JustCreated], priority := k.priority[t := 0]), t, lost);
  }

  lemma NotOnFeet(k: Kernel, lost: set<Tid>, t: Tid)
    requires Placed(k, lost) && (t !in k.task || !Active(k.task[t]))
    ensures !OnFeet(k, t)
  {
    if OnFeet(k, t) {
      OnFeetActive(k, t);
    }
  }

  lemma ForkPlaces(k: Kernel, lost: set<Tid>, t: Tid, p: nat)
    requires Placed(k, lost) && t in k.task && k.task[t] == JustCreated && p < MAX_PRIORITY
    ensures Placed(DoFork(k, t, p), lost)
  {
    NotOnFeet(k, lost, t);
    var k1 := k.(priority := k.priority[t := p], task := k.task[t := Working]);
    Relabelled(k, lost, k1, t, lost + {t});
    ReadyPlaces(k1, lost + {t}, t);
    assert lost + {t} - {t} == lost;
  }

  lemma YieldPlaces(k: Kernel, lost: set<Tid>)
    requires Placed(k, lost) && k.cpu.Runs?
    ensures Placed(DoYield(k), lost)
  {
    if k.ready[Top(k)] != [] {
      var t, k1 := k.cpu.t, k.(cpu := Idling);
      LeaveCpu(k, lost, t);
      DispatchPlaces(k1, lost + {t});
      ReadyPlaces(Dispatch(k1), lost + {t}, t);
      assert lost + {t} - {t} == lost;
    }
  }

  /** Changing only the numbers of a semaphore moves nobody. */
  lemma Recounted(k: Kernel, lost: set<Tid>, s: SemId, m: Sem)
    requires Placed(k, lost) && s in k.sems && m.queue == k.sems[s].queue
    ensures Placed(k.(sems := k.sems[s := m]), lost)
  {
    var k' := k.(sems := k.sems[s := m]);
    SameOnFeet(k, k');
    assert forall r, u :: InQueue(k', r, u) <==> InQueue(k, r, u);
    assert ReadyOk(k');
    hide OnFeet, ReadyOk, InQueue;
    forall u | u in k'.task && u !in lost
      ensures Somewhere(k', u)
    {
      assert Somewhere(k, u);
    }
  }

  /** The running thread leaves the loop of P. */
  lemma BackToWork(k: Kernel, lost: set<Tid>)
    requires Placed(k, lost) && k.cpu.Runs?
    ensures Placed(k.(task := k.task[k.cpu.t := Working]), lost)
  {
    var t := k.cpu.t;
    var k' := k.(task := k.task[t := Working]);
    SameOnFeet(k, k');
    assert forall r, u :: InQueue(k', r, u) <==> InQueue(k, r, u);
    assert OnFeet(k, t) && ReadyOk(k');
    hide OnFeet, ReadyOk, InQueue;
    forall u | u in k'.task && u !in lost
      ensures Somewhere(k', u)
    {
      assert Somewhere(k, u);
    }
  }

  lemma CpuIsTask(k: Kernel, lost: set<Tid>)
    requires Placed(k, lost) && k.cpu.Runs?
    ensures WellFormed(k) && k.cpu.t in k.task
  {
  }

  lemma TryPPlaces(k: Kernel, lost: set<Tid>, s: SemId)
    requires Placed(k, lost) && k.cpu.Runs? && s in k.sems
    ensures Placed(TryP(k, s), lost)
  {
    CpuIsTask(k, lost);
    hide Placed, Dispatch, ReadyOk, QueuesOk, OnFeet, InReady, InQueue, Somewhere, Nowhere;
    var t, m := k.cpu.t, k.sems[s];
    if m.value == 0 {
      LeaveCpu(k, lost, t);
      EnqueuePlaces(k.(cpu := Idling), lost + {t}, t, s);
      assert lost + {t} - {t} == lost;
      DispatchPlaces(Enqueue(k.(cpu := Idling), t, s), lost);
    } else {
      BackToWork(k, lost);
      Recounted(k.(task := k.task[t := Working]), lost, s, m.(value := m.value - 1));
    }
  }

  lemma VPlaces(k: Kernel, lost: set<Tid>, s: SemId)
    requires Placed(k, lost) && s in k.sems
    ensures Placed(DoV(k, s), lost)
  {
    hide ReadyOk, QueuesOk, OnFeet, InReady, InQueue, Somewhere;
    var k1 := k;
    if k.sems[s].queue != [] {
      var t := k.sems[s].queue[0];
      DequeuePlaces(k, lost, s);
      ReadyPlaces(Dequeue(k, s), lost + {t}, t);
      assert lost + {t} - {t} == lost;
      k1 := MakeReady(Dequeue(k, s), t);
    }
    var m := k1.sems[s];
    Recounted(k1, lost, s, m.(value := m.value + 1));
  }

  lemma FinishPlaces(k: Kernel, lost: set<Tid>)
    requires Placed(k, lost) && k.cpu.Runs?
    ensures Placed(DoFinish(k), lost)
  {
    var t, k1 := k.cpu.t, k.(cpu := Idling);
    LeaveCpu(k, lost, t);
    Buried(k1, lost, t);
    DispatchPlaces(k1.(task := k1.task[t := Finished]), lost);
  }

  /** A thread in the middle of a move that is finished needs no place. */
  lemma Buried(k: Kernel, lost: set<Tid>, t: Tid)
    requires Placed(k, lost + {t}) && t !in lost
    ensures Placed(k.(task := k.task[t := Finished]), lost)
  {
    var k' := k.(task := k.task[t := Finished]);
    SameOnFeet(k, k');
    assert forall r, u :: InQueue(k', r, u) <==> InQueue(k, r, u);
    assert ReadyOk(k') by {
      assert forall p | 0 <= p < MAX_PRIORITY && t in k.ready[p] :: InReady(k, t);
    }
    assert k.cpu != Runs(t);
    hide OnFeet, ReadyOk, InQueue;
    forall u | u in k'.task && u !in lost
      ensures Somewhere(k', u)
    {
      if u != t {
        assert Somewhere(k, u);
      }
    }
  }

  lemma NewSemPlaces(k: Kernel, lost: set<Tid>, s: SemId, n: nat)
    requires Placed(k, lost) && s !in k.sems
    ensures Placed(k.(sems := k.sems[s := Sem(n, [])]), lost)
  {
    var k' := k.(sems := k.sems[s := Sem(n, [])]);
    SameOnFeet(k, k');
    assert forall r, u :: InQueue(k', r, u) <==> InQueue(k, r, u);
    assert ReadyOk(k');
    hide OnFeet, ReadyOk, InQueue;
    forall u | u in k'.task && u !in lost
      ensures Somewhere(k', u)
    {
      assert Somewhere(k, u);
    }
  }

  // ----- donation -----

  function Without(q: seq<Tid>, t: Tid): (r: seq<Tid>)
    ensures forall u :: u in r <==> u in q && u != t
  {
    if q == [] then [] else (if q[0] == t then [] else [q[0]]) + Without(q[1..], t)
  }

  lemma {:induction false} WithoutNoDup(q: seq<Tid>, t: Tid)
    requires NoDup(q)
    ensures NoDup(Without(q, t))
    ensures t !in q ==> Without(q, t) == q
  {
    if q != [] {
      assert q == [q[0]] + q[1..] && q[0] !in q[1..];
      WithoutNoDup(q[1..], t);
    }
  }

  /** What the loop does to a queue without duplicates: everybody keeps their order, t goes, h is lost. */
  lemma {:induction false} RotateIs(todo: seq<Tid>, done: seq<Tid>, into: seq<Tid>, h: Tid, t: Tid)
    requires NoDup(todo) && h !in todo && h != t
    ensures Rotate(todo + [h] + done, into, h, t)
         == Rotated(done + Without(todo, t), (if t in todo then [t] else []) + into)
    decreases |todo|
  {
    var queue := todo + [h] + done;
    if todo == [] {
      assert queue[0] == h && queue[1..] == done;
    } else {
      var x := todo[0];
      assert todo == [x] + todo[1..] && x !in todo[1..];
      assert queue[0] == x && queue[1..] == todo[1..] + [h] + done;
      if x == t {
        RotateIs(todo[1..], done, [t] + into, h, t);
      } else {
        assert queue[1..] + [x] == todo[1..] + [h] + (done + [x]);
        RotateIs(todo[1..], done + [x], into, h, t);
        assert done + [x] + Without(todo[1..], t) == done + Without(todo, t);
      }
    }
  }

  /** The ready queues after a donation. */
  lemma ChangedIs(ready: seq<seq<Tid>>, t: Tid, i: nat, p: nat)
    requires |ready| == MAX_PRIORITY && i < MAX_PRIORITY && p < MAX_PRIORITY && i != p && ready[i] != []
    requires NoDup(ready[i])
    ensures Changed(ready, t, i, p)
         == ready[i := Without(ready[i][1..], t)][p := (if t in ready[i] then [t] else []) + ready[p]]
  {
    var h, rest := ready[i][0], ready[i][1..];
    assert ready[i] == [h] + rest && h !in rest && NoDup(rest);
    WithoutNoDup(rest, t);
    hide Without, Rotate;
    if h != t {
      RotateIs(rest, [], ready[p], h, t);
      assert rest + [h] + [] == rest + [h] && [] + Without(rest, t) == Without(rest, t);
      assert t in ready[i] <==> t in rest;
    } else {
      assert Without(rest, t) == rest;
    }
  }

  /** Who is ready after a donation, and where. */
  lemma DonateMembers(k: Kernel, t: Tid, u: Tid)
    requires WellFormed(k) && ReadyOk(k) && CanDonate(k, t) && k.ready[k.priority[t]] != []
    ensures var k', h := DoDonate(k, t), k.ready[k.priority[t]][0];
            && (forall q | 0 <= q < MAX_PRIORITY && u != t ::
                  u in k'.ready[q] <==> u in k.ready[q] && u != h)
            && (forall q | 0 <= q < MAX_PRIORITY ::
                  t in k'.ready[q] <==> q == k'.priority[t] && t in k.ready[k.priority[t]])
  {
    var i, p := k.priority[t], k.priority[k.cpu.t];
    var h, rest := k.ready[i][0], k.ready[i][1..];
    assert NoDup(k.ready[i]);
    ChangedIs(k.ready, t, i, p);
    hide Changed, Without;
    assert k.ready[i] == [h] + rest && h !in rest;
    assert h in k.ready[i] && k.priority[h] == i;
    forall q | 0 <= q < MAX_PRIORITY && u != t
      ensures u in DoDonate(k, t).ready[q] <==> u in k.ready[q] && u != h
    {
      assert u in k.ready[q] ==> k.priority[u] == q;
    }
    forall q | 0 <= q < MAX_PRIORITY
      ensures t in DoDonate(k, t).ready[q] <==> q == p && t in k.ready[i]
    {
      assert t in k.ready[q] ==> q == i;
    }
  }

  lemma DonateReadyOk(k: Kernel, t: Tid)
    requires WellFormed(k) && ReadyOk(k) && CanDonate(k, t) && k.ready[k.priority[t]] != []
    ensures WellFormed(DoDonate(k, t)) && ReadyOk(DoDonate(k, t))
  {
    var k', i, p := DoDonate(k, t), k.priority[t], k.priority[k.cpu.t];
    forall q | 0 <= q < MAX_PRIORITY
      ensures NoDup(k'.ready[q])
    {
      assert NoDup(k.ready[q]) && NoDup(k.ready[i]) && NoDup(k.ready[i][1..]);
      ChangedIs(k.ready, t, i, p);
      WithoutNoDup(k.ready[i][1..], t);
    }
    forall q, u | 0 <= q < MAX_PRIORITY && u in k'.ready[q]
      ensures u in k'.task && Active(k'.task[u]) && k'.priority[u] == q && k'.cpu != Runs(u)
    {
      DonateMembers(k, t, u);
    }
  }

  /** A donation to the first ready thread of its priority moves it; any other loses that first thread. */
  lemma DonatePlaces(k: Kernel, lost: set<Tid>, t: Tid)
    requires Placed(k, lost) && Enabled(k, Donate(t))
    ensures LostBy(k, Donate(t)) !! lost
    ensures Placed(DoDonate(k, t), lost + LostBy(k, Donate(t)))
  {
    var k', h := DoDonate(k, t), k.ready[k.priority[t]][0];
    DonateReadyOk(k, t);
    assert h in k.ready[k.priority[t]] && OnFeet(k, h);
    forall u
      ensures OnFeet(k', u) <==> OnFeet(k, u) && u !in LostBy(k, Donate(t))
    {
      DonateOnFeet(k, t, u);
    }
    Shuffled(k, lost, k', lost + LostBy(k, Donate(t)));
  }

  lemma DonateOnFeet(k: Kernel, t: Tid, u: Tid)
    requires Sound(k) && Enabled(k, Donate(t))
    ensures |DoDonate(k, t).ready| == MAX_PRIORITY
    ensures OnFeet(DoDonate(k, t), u) <==> OnFeet(k, u) && u !in LostBy(k, Donate(t))
  {
    var k', i := DoDonate(k, t), k.priority[t];
    DonateMembers(k, t, u);
    assert k.ready[i][0] in k.ready[i];
    if u == t {
      assert InReady(k', t) <==> t in k'.ready[k'.priority[t]];
      assert InReady(k, t) <==> t in k.ready[i];
    }
  }

  /** A donation keeps every thread in its place exactly when it is to the first ready thread of its priority. */
  lemma DonateIff(k: Kernel, lost: set<Tid>, t: Tid)
    requires Placed(k, lost) && Enabled(k, Donate(t))
    ensures Placed(DoDonate(k, t), lost) <==> AtHead(k, t)
    ensures var h := k.ready[k.priority[t]][0];
            !AtHead(k, t) ==> h !in lost && Placed(DoDonate(k, t), lost + {h})
  {
    var k', h := DoDonate(k, t), k.ready[k.priority[t]][0];
    DonatePlaces(k, lost, t);
    if AtHead(k, t) {
      assert lost + LostBy(k, Donate(t)) == lost;
    } else {
      assert h in k.ready[k.priority[t]] && Nowhere(k', h) && h in lost + {h};
      assert !Somewhere(k', h);
    }
  }

  /** Every step keeps every thread in its place, but for those that a donation loses. */
  lemma NextPlaces(k: Kernel, lost: set<Tid>, e: Event)
    requires Placed(k, lost) && Enabled(k, e)
    ensures Placed(Next(k, e), lost + LostBy(k, e))
  {
    hide WellFormed, ReadyOk, QueuesOk, CpuOk, OnFeet, InReady, Somewhere, Nowhere;
    assert !e.Donate? ==> lost + LostBy(k, e) == lost;
    match e
    case Create(t) => CreatePlaces(k, lost, t);
    case Fork(t, p) => ForkPlaces(k, lost, t, p);
    case NewSem(s, n) => NewSemPlaces(k, lost, s, n);
    case Yield => YieldPlaces(k, lost);
    case P(s) => TryPPlaces(k, lost, s);
    case Recheck => TryPPlaces(k, lost, k.task[k.cpu.t].s);
    case V(s) => VPlaces(k, lost, s);
    case Finish => FinishPlaces(k, lost);
    case Resume => DispatchPlaces(k, lost);
    case Donate(t) => DonatePlaces(k, lost, t);
  }

  // ----- every step keeps the counts -----

  /** The counts depend on tasks and semaphores only. */
  lemma SameCounts(k: Kernel, k': Kernel)
    requires Counted(k) && k'.task == k.task && k'.sems == k.sems
    ensures Counted(k')
  {
    forall s | s in k'.sems
      ensures SemOk(k', s)
    {
      assert SemOk(k, s);
      assert Woken(k', s) == Woken(k, s);
    }
  }

  /** Relabelling a thread that is not in a P, as one that is not in a P. */
  lemma RelabelCounts(k: Kernel, t: Tid, a: Task, k': Kernel)
    requires Counted(k) && !a.InP? && (t in k.task ==> !k.task[t].InP?)
    requires k'.task == k.task[t := a] && k'.sems == k.sems
    ensures Counted(k')
  {
    forall s | s in k'.sems
      ensures SemOk(k', s)
    {
      assert SemOk(k, s);
      assert Woken(k', s) == Woken(k, s);
    }
  }

  lemma SleepCounts(k: Kernel, t: Tid, s: SemId)
    requires Counted(k) && s in k.sems && k.sems[s].value == 0
    requires t in k.task && (k.task[t] == Working || k.task[t] == InP(s))
    ensures Counted(Enqueue(k, t, s))
  {
    var k' := Enqueue(k, t, s);
    forall r | r in k'.sems
      ensures SemOk(k', r)
    {
      assert SemOk(k, r);
      if r != s {
        assert Woken(k', r) == Woken(k, r);
      }
    }
  }

  /** A completed P takes one from the value and, after a sleep, one from the woken. */
  lemma PassCounts(k: Kernel, s: SemId)
    requires Counted(k) && k.cpu.Runs? && k.cpu.t in k.task && s in k.sems && k.sems[s].value > 0
    requires k.task[k.cpu.t] == Working || k.task[k.cpu.t] == InP(s)
    requires WellFormed(k)
    ensures Counted(TryP(k, s))
  {
    var k', t := TryP(k, s), k.cpu.t;
    forall r | r in k'.sems
      ensures SemOk(k', r)
    {
      assert SemOk(k, r);
      if r == s {
        assert Woken(k, s) <= Woken(k', s) + {t};
        Smaller(Woken(k, s), Woken(k', s), t);
      } else {
        assert Woken(k', r) == Woken(k, r);
      }
    }
  }

  lemma Smaller(a: set<Tid>, b: set<Tid>, t: Tid)
    requires a <= b + {t}
    ensures |a| <= |b| + 1
  {
    SubsetSize(a - {t}, b);
    assert a <= (a - {t}) + {t};
  }

  lemma {:induction false} SubsetSize(a: set<Tid>, b: set<Tid>)
    requires a <= b
    ensures |a| <= |b|
    decreases |a|
  {
    if t :| t in a {
      SubsetSize(a - {t}, b - {t});
    }
  }

  /** V wakes one thread for the one it adds. */
  lemma WakeCounts(k: Kernel, lost: set<Tid>, s: SemId)
    requires Placed(k, lost) && Counted(k) && s in k.sems
    ensures Counted(DoV(k, s))
  {
    var k' := DoV(k, s);
    forall r | r in k'.sems
      ensures SemOk(k', r)
    {
      assert SemOk(k, r);
      if r == s && k.sems[s].queue != [] {
        var t := k.sems[s].queue[0];
        assert k.sems[s].queue == [t] + k.sems[s].queue[1..];
        assert InQueue(k, s, t) && t !in Woken(k, s);
        assert Woken(k', s) == Woken(k, s) + {t};
      } else {
        assert Woken(k', r) == Woken(k, r);
      }
    }
  }

  lemma TryPCounts(k: Kernel, lost: set<Tid>, s: SemId)
    requires Placed(k, lost) && Counted(k) && k.cpu.Runs? && s in k.sems
    requires k.task[k.cpu.t] == Working || k.task[k.cpu.t] == InP(s)
    ensures Counted(TryP(k, s))
  {
    if k.sems[s].value == 0 {
      var k1 := k.(cpu := Idling);
      SameCounts(k, k1);
      SleepCounts(k1, k.cpu.t, s);
      SameCounts(Enqueue(k1, k.cpu.t, s), TryP(k, s));
    } else {
      PassCounts(k, s);
    }
  }

  lemma FinishCounts(k: Kernel, lost: set<Tid>)
    requires Placed(k, lost) && Counted(k) && CurrentIs(k, Working)
    ensures Counted(DoFinish(k))
  {
    RelabelCounts(k, k.cpu.t, Finished, DoFinish(k));
  }

  lemma NewSemCounts(k: Kernel, s: SemId, n: nat)
    requires Counted(k) && s !in k.sems
    ensures Counted(k.(sems := k.sems[s := Sem(n, [])]))
  {
    var k' := k.(sems := k.sems[s := Sem(n, [])]);
    forall r | r in k'.sems
      ensures SemOk(k', r)
    {
      if r != s {
        assert SemOk(k, r);
        assert Woken(k', r) == Woken(k, r);
      }
    }
  }

  lemma NextCounts(k: Kernel, lost: set<Tid>, e: Event)
    requires Valid(k, lost) && Enabled(k, e)
    ensures Counted(Next(k, e))
  {
    hide Counted, WellFormed, ReadyOk, QueuesOk, OnFeet;
    match e
    case Create(t) => RelabelCounts(k, t, JustCreated, Next(k, e));
    case Fork(t, p) => RelabelCounts(k, t, Working, Next(k, e));
    case NewSem(s, n) => NewSemCounts(k, s, n);
    case Yield => SameCounts(k, Next(k, e));
    case P(s) => TryPCounts(k, lost, s);
    case Recheck => TryPCounts(k, lost, k.task[k.cpu.t].s);
    case V(s) => WakeCounts(k, lost, s);
    case Finish => FinishCounts(k, lost);
    case Resume => SameCounts(k, Next(k, e));
    case Donate(t) => SameCounts(k, Next(k, e));
  }

  /** Every step of the kernel keeps the invariant, with the threads that it loses added. */
  lemma NextKeepsValid(k: Kernel, lost: set<Tid>, e: Event)
    requires Valid(k, lost) && Enabled(k, e)
    ensures Valid(Next(k, e), lost + LostBy(k, e))
  {
    NextPlaces(k, lost, e);
    NextCounts(k, lost, e);
  }

  /** Dispatch takes the head of the highest non-empty queue, and idles only when all are empty. */
  lemma DispatchTakesHighest(k: Kernel)
    requires WellFormed(k)
    ensures Dispatch(k).cpu == Idling <==> forall p | 0 <= p < MAX_PRIORITY :: k.ready[p] == []
    ensures Dispatch(k).cpu.Runs? ==>
      exists p | 0 <= p < MAX_PRIORITY :: (k.ready[p] != [] && Dispatch(k).cpu.t == k.ready[p][0]
        && Dispatch(k).ready == k.ready[p := k.ready[p][1..]]
        && forall r | p < r < MAX_PRIORITY :: k.ready[r] == [])
  {
  }
}
