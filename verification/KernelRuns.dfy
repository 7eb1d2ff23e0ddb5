/**
 * Whole runs of the kernel from boot: where the threads are, what a donation of priority loses, and what the
 * semaphores are worth.
 */
module KernelRuns {
  import opened Kernels

  // ----- what the invariant says -----

  function One(b: bool): (n: nat)
  {
    if b then 1 else 0
  }

  /** In how many of these places a thread is: just created, finished, running, ready, asleep. */
  ghost function Places(k: Kernel, t: Tid): (n: nat)
    requires t in k.task && |k.ready| == MAX_PRIORITY
  {
    One(k.task[t] == JustCreated) + One(k.task[t] == Finished) + One(k.cpu == Runs(t))
      + One(InReady(k, t)) + One(exists s :: InQueue(k, s, t))
  }

  lemma PlacedInOne(k: Kernel, lost: set<Tid>, t: Tid)
    requires Valid(k, lost) && t in k.task
    ensures Places(k, t) == One(t !in lost)
  {
    if t !in lost {
      assert Somewhere(k, t);
    }
    if k.cpu == Runs(t) || InReady(k, t) {
      assert OnFeet(k, t);
      OnFeetActive(k, t);
    }
    if s :| InQueue(k, s, t) {
      assert k.task[t] == InP(s) && !OnFeet(k, t);
    }
  }

  /** A ready thread stands once, at its priority; a sleeping one once, at the semaphore that it is in the P of. */
  ghost predicate QueuedOnce(k: Kernel, t: Tid)
    requires t in k.priority && |k.ready| == MAX_PRIORITY
  {
    && (forall p, q, i, j | 0 <= p < MAX_PRIORITY && 0 <= q < MAX_PRIORITY && 0 <= i < |k.ready[p]| && 0 <= j < |k.ready[q]| ::
          k.ready[p][i] == t == k.ready[q][j] ==> p == q == k.priority[t] && i == j)
    && (forall r, s, i, j | r in k.sems && s in k.sems && 0 <= i < |k.sems[r].queue| && 0 <= j < |k.sems[s].queue| ::
          k.sems[r].queue[i] == t == k.sems[s].queue[j] ==> r == s && i == j)
  }

  lemma PlacedOnce(k: Kernel, lost: set<Tid>, t: Tid)
    requires Valid(k, lost) && t in k.task
    ensures QueuedOnce(k, t)
  {
    forall p, q, i, j | 0 <= p < MAX_PRIORITY && 0 <= q < MAX_PRIORITY && 0 <= i < |k.ready[p]| && 0 <= j < |k.ready[q]|
      ensures k.ready[p][i] == t == k.ready[q][j] ==> p == q == k.priority[t] && i == j
    {
      assert k.ready[p][i] in k.ready[p] && k.ready[q][j] in k.ready[q] && NoDup(k.ready[p]);
    }
    forall r, s, i, j | r in k.sems && s in k.sems && 0 <= i < |k.sems[r].queue| && 0 <= j < |k.sems[s].queue|
      ensures k.sems[r].queue[i] == t == k.sems[s].queue[j] ==> r == s && i == j
    {
      assert InQueue(k, r, k.sems[r].queue[i]) && InQueue(k, s, k.sems[s].queue[j]) && NoDup(k.sems[r].queue);
    }
  }

  // ----- runs -----

  /** The main thread runs, nothing else exists. */
  ghost function Boot(main: Tid): (k: Kernel)
  {
    Kernel(Runs(main), [[], [], []], map[main := 0], map[main := Working], map[])
  }

  lemma BootIsValid(main: Tid)
    ensures Valid(Boot(main), {})
  {
    var k := Boot(main);
    assert forall t :: InReady(k, t) ==> t in k.ready[0] || t in k.ready[1] || t in k.ready[2];
  }

  /** The step of a run from k to k'. */
  ghost predicate Goes(k: Kernel, e: Event, k': Kernel)
  {
    Sound(k) ==> Enabled(k, e) && k' == Next(k, e)
  }

  /** A run from boot; it ends where a donation finds an empty queue and takes the name of no thread. */
  ghost predicate IsRun(ks: seq<Kernel>, es: seq<Event>)
  {
    && |ks| == |es| + 1
    && (exists main :: ks[0] == Boot(main))
    && forall i | 0 <= i < |es| :: Goes(ks[i], es[i], ks[i + 1])
  }

  /** The donation, if the step is one, is to the first ready thread of its priority. */
  ghost predicate SafeStep(k: Kernel, e: Event)
  {
    e.Donate? ==> WellFormed(k) && e.t in k.task && AtHead(k, e.t)
  }

  /** The first ready thread of the priority that a donation takes from. */
  ghost function HeadOf(k: Kernel, e: Event): (h: set<Tid>)
  {
    if e.Donate? && e.t in k.priority && k.priority[e.t] < |k.ready| && k.ready[k.priority[e.t]] != []
    then {k.ready[k.priority[e.t]][0]} else {}
  }

  /** The heads of the queues at the unsafe donations before step i. */
  ghost function Lost(ks: seq<Kernel>, es: seq<Event>, i: nat): (lost: set<Tid>)
    requires i <= |es| && |ks| == |es| + 1
  {
    if i == 0 then {} else Lost(ks, es, i - 1) + if SafeStep(ks[i - 1], es[i - 1]) then {} else HeadOf(ks[i - 1], es[i - 1])
  }

  lemma LostStep(k: Kernel, e: Event)
    requires Sound(k) && Enabled(k, e)
    ensures LostBy(k, e) == if SafeStep(k, e) then {} else HeadOf(k, e)
    ensures !SafeStep(k, e) ==> HeadOf(k, e) != {}
  {
  }

  lemma {:induction false} RunKeepsValid(ks: seq<Kernel>, es: seq<Event>, i: nat)
    requires IsRun(ks, es) && i < |ks|
    ensures Valid(ks[i], Lost(ks, es, i)) && Sound(ks[i])
    ensures i < |es| ==> Enabled(ks[i], es[i]) && ks[i + 1] == Next(ks[i], es[i])
  {
    hide Next, Enabled, LostBy, HeadOf, SafeStep, WellFormed, ReadyOk, QueuesOk, CpuOk, Counted;
    if i == 0 {
      var main :| ks[0] == Boot(main);
      BootIsValid(main);
    } else {
      RunKeepsValid(ks, es, i - 1);
      NextKeepsValid(ks[i - 1], Lost(ks, es, i - 1), es[i - 1]);
      LostStep(ks[i - 1], es[i - 1]);
    }
    assert i < |es| ==> Goes(ks[i], es[i], ks[i + 1]);
  }

  /**
   * At all times of every run, a thread is in exactly one place, and stands there once, unless an unsafe
   * donation found it at the head of its queue; then it is in no place at all.
   */
  lemma ExactlyOnePlace(ks: seq<Kernel>, es: seq<Event>, i: nat, t: Tid)
    requires IsRun(ks, es) && i < |ks| && t in ks[i].task
    ensures |ks[i].ready| == MAX_PRIORITY && t in ks[i].priority
    ensures Places(ks[i], t) == if t in Lost(ks, es, i) then 0 else 1
    ensures QueuedOnce(ks[i], t)
  {
    RunKeepsValid(ks, es, i);
    assert |ks| == |es| + 1;
    hide IsRun, Places, QueuedOnce, ReadyOk, QueuesOk, CpuOk, Counted, Lost;
    PlacedInOne(ks[i], Lost(ks, es, i), t);
    PlacedOnce(ks[i], Lost(ks, es, i), t);
  }

  ghost predicate SafeUntil(ks: seq<Kernel>, es: seq<Event>, i: nat)
    requires i <= |es| && |ks| == |es| + 1
  {
    forall j | 0 <= j < i :: SafeStep(ks[j], es[j])
  }

  lemma {:induction false} LostNoneIff(ks: seq<Kernel>, es: seq<Event>, i: nat)
    requires IsRun(ks, es) && i < |ks|
    ensures Lost(ks, es, i) == {} <==> SafeUntil(ks, es, i)
    ensures forall t | t in Lost(ks, es, i) :: t in ks[i].task
  {
    assert |ks| == |es| + 1;
    hide IsRun, SafeStep, HeadOf, Enabled, Next;
    RunKeepsValid(ks, es, i);
    if i > 0 {
      LostNoneIff(ks, es, i - 1);
      RunKeepsValid(ks, es, i - 1);
      LostStep(ks[i - 1], es[i - 1]);
    }
  }

  /** In every run, every thread is in exactly one place at step i exactly when every donation before it was safe. */
  lemma OnePlaceIff(ks: seq<Kernel>, es: seq<Event>, i: nat)
    requires IsRun(ks, es) && i < |ks|
    ensures |ks[i].ready| == MAX_PRIORITY
    ensures (forall t | t in ks[i].task :: Places(ks[i], t) == 1) <==> SafeUntil(ks, es, i)
  {
    assert |ks| == |es| + 1;
    hide IsRun, SafeUntil, Places, Lost;
    LostNoneIff(ks, es, i);
    RunKeepsValid(ks, es, i);
    forall t | t in ks[i].task
      ensures Places(ks[i], t) == if t in Lost(ks, es, i) then 0 else 1
    {
      ExactlyOnePlace(ks, es, i, t);
    }
    if t :| t in Lost(ks, es, i) {
      assert Places(ks[i], t) == 0;
    }
  }

  /** A lost thread stays lost: it is never in any place again. */
  lemma {:induction false} LostForGood(ks: seq<Kernel>, es: seq<Event>, i: nat, j: nat, t: Tid)
    requires IsRun(ks, es) && i <= j < |ks| && t in Lost(ks, es, i)
    ensures t in ks[j].task && |ks[j].ready| == MAX_PRIORITY && Places(ks[j], t) == 0
    decreases j
  {
    assert |ks| == |es| + 1;
    hide IsRun, Places;
    LostGrows(ks, es, i, j, t);
    LostNoneIff(ks, es, j);
    ExactlyOnePlace(ks, es, j, t);
  }

  lemma {:induction false} LostGrows(ks: seq<Kernel>, es: seq<Event>, i: nat, j: nat, t: Tid)
    requires |ks| == |es| + 1 && i <= j <= |es| && t in Lost(ks, es, i)
    ensures t in Lost(ks, es, j)
  {
    if i < j {
      LostGrows(ks, es, i, j - 1, t);
    }
  }

  /**
   * At all times of every run, while threads sleep at a semaphore, at least as many threads as its value
   * have been woken and have yet to look at it; each of them is on its feet, unless it has been lost.
   */
  lemma NoLostWakeup(ks: seq<Kernel>, es: seq<Event>, i: nat, s: SemId)
    requires IsRun(ks, es) && i < |ks| && s in ks[i].sems && ks[i].sems[s].queue != []
    ensures |ks[i].ready| == MAX_PRIORITY && ks[i].sems[s].value <= |Woken(ks[i], s)|
    ensures forall t | t in Woken(ks[i], s) ::
      t in ks[i].task && ks[i].task[t] == InP(s) && (OnFeet(ks[i], t) <==> t !in Lost(ks, es, i))
  {
    RunKeepsValid(ks, es, i);
    hide IsRun, Lost;
    var k, lost := ks[i], Lost(ks, es, i);
    assert SemOk(k, s);
    forall t | t in Woken(k, s)
      ensures t in k.task && k.task[t] == InP(s) && (OnFeet(k, t) <==> t !in lost)
    {
      if t !in lost {
        assert Somewhere(k, t);
      }
    }
  }

  // ----- the value of a semaphore -----

  /** The initial value with which s was made. */
  ghost function Initial(es: seq<Event>, s: SemId): (n: nat)
  {
    if es == [] then 0
    else Initial(es[..|es| - 1], s) + match es[|es| - 1] case NewSem(r, n) => (if r == s then n else 0) case _ => 0
  }

  /** The number of Vs on s. */
  ghost function Vs(es: seq<Event>, s: SemId): (n: nat)
  {
    if es == [] then 0 else Vs(es[..|es| - 1], s) + One(es[|es| - 1] == V(s))
  }

  /** The step is a P on s from which the thread returns. */
  ghost predicate Returns(k: Kernel, e: Event, k': Kernel, s: SemId)
  {
    && k.cpu.Runs? && k.cpu.t in k.task && k.cpu.t in k'.task
    && (e == P(s) || (e == Recheck && k.task[k.cpu.t] == InP(s)))
    && k'.task[k.cpu.t] == Working
  }

  /** The number of Ps on s that have returned before step i. */
  ghost function Ps(ks: seq<Kernel>, es: seq<Event>, i: nat, s: SemId): (n: nat)
    requires i <= |es| && |ks| == |es| + 1
  {
    if i == 0 then 0 else Ps(ks, es, i - 1, s) + One(Returns(ks[i - 1], es[i - 1], ks[i], s))
  }

  /** What one step does to the value: a P that returns finds it positive. */
  lemma ValueStep(k: Kernel, e: Event, s: SemId)
    requires Sound(k) && Enabled(k, e)
    ensures var k' := Next(k, e);
            && (s in k'.sems <==> s in k.sems || (e.NewSem? && e.s == s))
            && (e.NewSem? && e.s == s ==> s !in k.sems && k'.sems[s].value == e.initial)
            && (s in k.sems ==> k'.sems[s].value + One(Returns(k, e, k', s)) == k.sems[s].value + One(e == V(s)))
            && (Returns(k, e, k', s) ==> s in k.sems && k.sems[s].value > 0)
            && (s !in k.sems ==> e != V(s))
  {
    hide ReadyOk, QueuesOk, CpuOk, Counted, OnFeet, InReady, Somewhere, Nowhere, Changed;
    if e.V? && k.sems[e.s].queue != [] {
      SleeperIsTask(k, e.s);
    }
    if e.Recheck? {
      RecheckStep(k);
    }
  }

  lemma RecheckStep(k: Kernel)
    requires Sound(k) && Enabled(k, Recheck)
    ensures var s, k' := k.task[k.cpu.t].s, Next(k, Recheck);
            k'.task[k.cpu.t] == Working <==> k.sems[s].value > 0
  {
  }

  /** At all times of every run, a semaphore's value is its initial value plus the Vs less the returned Ps. */
  lemma {:induction false} ValueIsBalance(ks: seq<Kernel>, es: seq<Event>, i: nat, s: SemId)
    requires IsRun(ks, es) && i < |ks|
    ensures s in ks[i].sems ==> ks[i].sems[s].value == Initial(es[..i], s) + Vs(es[..i], s) - Ps(ks, es, i, s)
    ensures s !in ks[i].sems ==> Initial(es[..i], s) == 0 && Vs(es[..i], s) == 0 && Ps(ks, es, i, s) == 0
  {
    hide Valid, Next, Enabled, Returns, Lost, Sound;
    if i > 0 {
      ValueIsBalance(ks, es, i - 1, s);
      RunKeepsValid(ks, es, i - 1);
      ValueStep(ks[i - 1], es[i - 1], s);
      assert es[..i][..i - 1] == es[..i - 1];
    }
  }

  // ----- P and V as single steps -----

  /** The operations of atomic semaphores. */
  datatype Atomic = Nothing | Made(s: SemId, initial: nat) | TookOne(t: Tid, s: SemId) | AddedOne(s: SemId)

  /** What a step of the kernel is to its semaphores: a P is the moment at which it returns. */
  ghost function Seen(k: Kernel, e: Event, k': Kernel): (a: Atomic)
  {
    match e
    case NewSem(s, n) => Made(s, n)
    case V(s) => AddedOne(s)
    case P(s) => if Returns(k, e, k', s) then TookOne(k.cpu.t, s) else Nothing
    case Recheck =>
      if k.cpu.Runs? && k.cpu.t in k.task && k.task[k.cpu.t].InP? && Returns(k, e, k', k.task[k.cpu.t].s)
      then TookOne(k.cpu.t, k.task[k.cpu.t].s) else Nothing
    case _ => Nothing
  }

  ghost function Values(k: Kernel): (vs: map<SemId, nat>)
  {
    map s | s in k.sems :: k.sems[s].value
  }

  /** A step of atomic semaphores: P waits for a positive value and takes one from it. */
  ghost predicate AtomicStep(vs: map<SemId, nat>, vs': map<SemId, nat>, a: Atomic)
  {
    match a
    case Nothing => vs' == vs
    case Made(s, n) => s !in vs && vs' == vs[s := n]
    case TookOne(_, s) => s in vs && vs[s] > 0 && vs' == vs[s := vs[s] - 1]
    case AddedOne(s) => s in vs && vs' == vs[s := vs[s] + 1]
  }

  /** The step does not concern the semaphore. */
  ghost predicate Elsewhere(a: Atomic, s: SemId)
  {
    a == Nothing || a.s != s
  }

  lemma SeenReturns(k: Kernel, e: Event, k': Kernel, s: SemId)
    ensures Returns(k, e, k', s) <==> Seen(k, e, k').TookOne? && Seen(k, e, k').s == s
    ensures e == V(s) <==> Seen(k, e, k') == AddedOne(s)
  {
  }

  lemma StepIsAtomic(k: Kernel, e: Event)
    requires Sound(k) && Enabled(k, e)
    ensures AtomicStep(Values(k), Values(Next(k, e)), Seen(k, e, Next(k, e)))
  {
    hide Next, Enabled, Returns, Seen, Sound;
    var k', a := Next(k, e), Seen(k, e, Next(k, e));
    forall s: SemId
      ensures s in k'.sems <==> s in k.sems || (a.Made? && a.s == s)
      ensures a.Made? && a.s == s ==> s !in k.sems && k'.sems[s].value == a.initial
      ensures s in k.sems && Elsewhere(a, s) ==> k'.sems[s].value == k.sems[s].value
      ensures a.TookOne? && a.s == s ==> s in k.sems && k.sems[s].value > 0 && k'.sems[s].value == k.sems[s].value - 1
      ensures a.AddedOne? && a.s == s ==> s in k.sems && k'.sems[s].value == k.sems[s].value + 1
    {
      ValueStep(k, e, s);
      SeenReturns(k, e, k', s);
      SeenMade(k, e, k');
    }
  }

  lemma SeenMade(k: Kernel, e: Event, k': Kernel)
    ensures e.NewSem? <==> Seen(k, e, k').Made?
    ensures e.NewSem? ==> Seen(k, e, k') == Made(e.s, e.initial)
  {
  }

  /** A thread inside a P does nothing but wait for it to return: no other step is its own. */
  lemma OnlyReturns(k: Kernel, e: Event, t: Tid)
    requires Sound(k) && Enabled(k, e) && t in k.task && k.task[t].InP?
    ensures var k', s := Next(k, e), k.task[t].s;
            t in k'.task && (k'.task[t] == InP(s) || (Seen(k, e, k') == TookOne(t, s) && k'.task[t] == Working))
    ensures Seen(k, e, Next(k, e)).TookOne? && Seen(k, e, Next(k, e)).t == t ==> Seen(k, e, Next(k, e)).s == k.task[t].s
  {
    hide ReadyOk, QueuesOk, CpuOk, OnFeet, InReady, Somewhere, Nowhere, Changed;
    if e.V? && k.sems[e.s].queue != [] {
      SleeperIsTask(k, e.s);
    }
  }

  /**
   * Every run of the kernel is, to its semaphores, a run in which P and V are single steps: sleeping, waking
   * and looking again change no value, and a P takes effect when it returns.
   */
  lemma RunIsAtomic(ks: seq<Kernel>, es: seq<Event>, i: nat)
    requires IsRun(ks, es) && i < |es|
    ensures AtomicStep(Values(ks[i]), Values(ks[i + 1]), Seen(ks[i], es[i], ks[i + 1]))
    ensures forall t | t in ks[i].task && ks[i].task[t].InP? ::
      t in ks[i + 1].task && (ks[i + 1].task[t] == ks[i].task[t] || Seen(ks[i], es[i], ks[i + 1]) == TookOne(t, ks[i].task[t].s))
  {
    RunKeepsValid(ks, es, i);
    hide IsRun, Valid, Next, Enabled, AtomicStep, Seen, Sound;
    StepIsAtomic(ks[i], es[i]);
    forall t | t in ks[i].task && ks[i].task[t].InP?
      ensures t in ks[i + 1].task && (ks[i + 1].task[t] == ks[i].task[t] || Seen(ks[i], es[i], ks[i + 1]) == TookOne(t, ks[i].task[t].s))
    {
      OnlyReturns(ks[i], es[i], t);
    }
  }

  /** A finished thread stays finished and never gets the processor again. */
  lemma {:induction false} FinishedForGood(ks: seq<Kernel>, es: seq<Event>, i: nat, j: nat, t: Tid)
    requires IsRun(ks, es) && i <= j < |ks|
    requires t in ks[i].task && ks[i].task[t] == Finished
    ensures t in ks[j].task && ks[j].task[t] == Finished && ks[j].cpu != Runs(t)
    decreases j
  {
    hide Next, Enabled, Counted, ReadyOk, QueuesOk, Lost;
    RunKeepsValid(ks, es, j);
    if i < j {
      FinishedForGood(ks, es, i, j - 1, t);
      RunKeepsValid(ks, es, j - 1);
      FinishedStays(ks[j - 1], es[j - 1], t);
    }
  }

  lemma FinishedStays(k: Kernel, e: Event, t: Tid)
    requires Sound(k) && Enabled(k, e) && t in k.task && k.task[t] == Finished
    ensures var k' := Next(k, e); t in k'.task && k'.task[t] == Finished
  {
    hide ReadyOk, QueuesOk, OnFeet, InReady, Somewhere, Nowhere, Changed;
    if e.V? && k.sems[e.s].queue != [] {
      SleeperIsTask(k, e.s);
    }
  }

  // ----- runs in which a donation goes wrong -----

  lemma NewSemGoes(k: Kernel, s: SemId, n: nat)
    requires CurrentIs(k, Working) && s !in k.sems
    ensures Goes(k, NewSem(s, n), k.(sems := k.sems[s := Sem(n, [])]))
  {
  }

  lemma CreateGoes(k: Kernel, t: Tid)
    requires CurrentIs(k, Working) && t !in k.task
    ensures Goes(k, Create(t), k.(task := k.task[t := JustCreated], priority := k.priority[t := 0]))
  {
  }

  lemma ForkGoes(k: Kernel, t: Tid, p: nat)
    requires WellFormed(k) && CurrentIs(k, Working) && t in k.task && k.task[t] == JustCreated && p < MAX_PRIORITY
    ensures Goes(k, Fork(t, p), k.(priority := k.priority[t := p], task := k.task[t := Working],
              ready := k.ready[p := k.ready[p] + [t]]))
  {
  }

  lemma PGoes(k: Kernel, t: Tid, s: SemId)
    requires k.cpu == Runs(t) && CurrentIs(k, Working) && s in k.sems && k.sems[s].value == 1
    ensures Goes(k, P(s), k.(sems := k.sems[s := k.sems[s].(value := 0)]))
  {
    assert k.task[t := Working] == k.task;
  }

  lemma VGoes(k: Kernel, s: SemId)
    requires CurrentIs(k, Working) && s in k.sems && k.sems[s] == Sem(0, [])
    ensures Goes(k, V(s), k.(sems := k.sems[s := k.sems[s].(value := 1)]))
  {
  }

  /** The first ready thread of priority 1 is next when there is none of priority 2. */
  lemma YieldGoes(k: Kernel, t: Tid)
    requires WellFormed(k) && k.cpu == Runs(t) && CurrentIs(k, Working) && k.priority[t] == 0
    requires k.ready[2] == [] && k.ready[1] != []
    ensures Goes(k, Yield, k.(cpu := Runs(k.ready[1][0]), ready := k.ready[1 := k.ready[1][1..]][0 := k.ready[0] + [t]]))
  {
    assert Top(k) == 1;
  }

  lemma SleepGoes(k: Kernel, t: Tid, s: SemId)
    requires WellFormed(k) && k.cpu == Runs(t) && CurrentIs(k, Working) && s in k.sems && k.sems[s] == Sem(0, [])
    requires k.ready[2] == [] && k.ready[1] != []
    ensures Goes(k, P(s), k.(cpu := Runs(k.ready[1][0]), ready := k.ready[1 := k.ready[1][1..]],
              task := k.task[t := InP(s)], sems := k.sems[s := Sem(0, [t])]))
  {
    var k1 := Enqueue(k.(cpu := Idling), t, s);
    assert [] + [t] == [t] && Top(k1) == 1;
  }

  /**
   * Main runs at priority 0 and thread 2 is ready at priority 1; others, if any, are ready at priority 0.
   * Semaphores 0 and 1 are those of a free lock, and 2 is a device's.
   */
  ghost predicate SetUp(k: Kernel, others: seq<Tid>)
  {
    && WellFormed(k) && CurrentIs(k, Working) && k.cpu == Runs(0) && 2 in k.task && k.task[2] == Working
    && k.ready[0] == others && k.ready[1] == [2] && k.ready[2] == [] && k.priority[0] == 0 && k.priority[2] == 1
    && 0 in k.sems && 1 in k.sems && 2 in k.sems
    && k.sems[0] == k.sems[1] == Sem(1, []) && k.sems[2] == Sem(0, [])
  }

  ghost function SemEvents(): (es: seq<Event>)
  {
    [NewSem(0, 1), NewSem(1, 1), NewSem(2, 0)]
  }

  ghost function ForkEvents(t: Tid, p: nat): (es: seq<Event>)
  {
    [Create(t), Fork(t, p)]
  }

  /** Acquire of a free lock, whose holder there is not. */
  ghost function AcquireEvents(): (es: seq<Event>)
  {
    [P(1), V(1), P(0)]
  }

  /** A part of a run. */
  ghost predicate Part(ks: seq<Kernel>, es: seq<Event>)
  {
    |ks| == |es| + 1 && forall i | 0 <= i < |es| :: Goes(ks[i], es[i], ks[i + 1])
  }

  lemma Joined(ks: seq<Kernel>, es: seq<Event>, ls: seq<Kernel>, fs: seq<Event>)
    requires Part(ks, es) && Part(ls, fs) && ls[0] == ks[|es|]
    ensures Part(ks + ls[1..], es + fs)
  {
    hide Goes;
    var ms := ks + ls[1..];
    forall i | 0 <= i < |es + fs|
      ensures Goes(ms[i], (es + fs)[i], ms[i + 1])
    {
      if i >= |es| {
        assert Goes(ls[i - |es|], fs[i - |es|], ls[i - |es| + 1]);
      }
    }
  }

  lemma SemPart() returns (ks: seq<Kernel>)
    ensures Part(ks, SemEvents()) && ks[0] == Boot(0)
    ensures ks[3] == Boot(0).(sems := map[0 := Sem(1, []), 1 := Sem(1, []), 2 := Sem(0, [])])
  {
    var k0 := Boot(0);
    var k1 := k0.(sems := k0.sems[0 := Sem(1, [])]);
    var k2 := k1.(sems := k1.sems[1 := Sem(1, [])]);
    var k3 := k2.(sems := k2.sems[2 := Sem(0, [])]);
    NewSemGoes(k0, 0, 1);
    NewSemGoes(k1, 1, 1);
    NewSemGoes(k2, 2, 0);
    ks := [k0, k1, k2, k3];
  }

  lemma ForkPart(k: Kernel, t: Tid, p: nat) returns (ks: seq<Kernel>)
    requires WellFormed(k) && CurrentIs(k, Working) && t !in k.task && p < MAX_PRIORITY
    ensures Part(ks, ForkEvents(t, p)) && ks[0] == k && WellFormed(ks[2])
    ensures ks[2] == k.(priority := k.priority[t := p], task := k.task[t := Working], ready := k.ready[p := k.ready[p] + [t]])
  {
    var k1 := k.(task := k.task[t := JustCreated], priority := k.priority[t := 0]);
    CreateGoes(k, t);
    ForkGoes(k1, t, p);
    var k2 := k1.(priority := k1.priority[t := p], task := k1.task[t := Working], ready := k1.ready[p := k1.ready[p] + [t]]);
    assert k1.priority[t := p] == k.priority[t := p] && k1.task[t := Working] == k.task[t := Working];
    ks := [k, k1, k2];
  }

  lemma AcquirePart(k: Kernel, others: seq<Tid>) returns (ks: seq<Kernel>)
    requires SetUp(k, others)
    ensures Part(ks, AcquireEvents()) && ks[0] == k
    ensures ks[3] == k.(sems := k.sems[0 := Sem(0, [])])
  {
    var k1 := k.(sems := k.sems[1 := k.sems[1].(value := 0)]);
    var k2 := k1.(sems := k1.sems[1 := k1.sems[1].(value := 1)]);
    var k3 := k2.(sems := k2.sems[0 := k2.sems[0].(value := 0)]);
    PGoes(k, 0, 1);
    VGoes(k1, 1);
    PGoes(k2, 0, 0);
    assert k2.sems == k.sems;
    ks := [k, k1, k2, k3];
  }

  /** The set-up of both runs: the semaphores, thread 1 if it is wanted, and thread 2. */
  lemma SetUpPart(with1: bool) returns (ks: seq<Kernel>, es: seq<Event>)
    ensures Part(ks, es) && ks[0] == Boot(0) && SetUp(ks[|es|], if with1 then [1] else [])
    ensures with1 ==> 1 in ks[|es|].task
  {
    hide Goes;
    ks := SemPart();
    es := SemEvents();
    if with1 {
      var fork := ForkPart(ks[3], 1, 0);
      Joined(ks, es, fork, ForkEvents(1, 0));
      ks, es := ks + fork[1..], es + ForkEvents(1, 0);
      assert [] + [1] == [1];
    }
    var k := ks[|es|];
    var fork := ForkPart(k, 2, 1);
    Joined(ks, es, fork, ForkEvents(2, 1));
    ks, es := ks + fork[1..], es + ForkEvents(2, 1);
    assert [] + [2] == [2];
  }

  /**
   * A run from boot in which main, which holds a lock, stands behind thread 1 when thread 2 wants the lock:
   * thread 1, which only waits for its turn, is in no place at all in the end.
   */
  lemma DonationLoses() returns (ks: seq<Kernel>, es: seq<Event>)
    ensures IsRun(ks, es) && es != [] && es[|es| - 1] == Donate(0) && !SafeStep(ks[|es| - 1], Donate(0))
    ensures 1 in ks[|es|].task && |ks[|es|].ready| == MAX_PRIORITY && Places(ks[|es|], 1) == 0
  {
    hide Goes, Places;
    ks, es := SetUpPart(true);
    var lock := AcquirePart(ks[|es|], [1]);
    var k3 := lock[3];
    var k4 := k3.(cpu := Runs(2), ready := k3.ready[1 := k3.ready[1][1..]][0 := k3.ready[0] + [0]]);
    YieldGoes(k3, 0);
    var k5 := k4.(sems := k4.sems[1 := k4.sems[1].(value := 0)]);
    PGoes(k4, 2, 1);
    assert k5.ready[0] == [1, 0];
    DonateGoes(k5);
    var k6 := DoDonate(k5, 0);
    ks, es := Completed([k3, k4, k5, k6], [Yield, P(1), Donate(0)], ks, es, lock);
    LostAtEnd(ks, es, 1);
  }

  lemma DonateGoes(k: Kernel)
    requires CanDonate(k, 0) && k.ready[k.priority[0]] != []
    ensures Goes(k, Donate(0), DoDonate(k, 0))
  {
  }

  /** The set-up, the acquisition and the rest make a run. */
  lemma Completed(ls: seq<Kernel>, fs: seq<Event>, ks: seq<Kernel>, es: seq<Event>, lock: seq<Kernel>)
    returns (ms: seq<Kernel>, gs: seq<Event>)
    requires Part(ks, es) && Part(lock, AcquireEvents()) && Part(ls, fs) && ks[0] == Boot(0) && fs != []
    requires lock[0] == ks[|es|] && ls[0] == lock[3]
    ensures IsRun(ms, gs) && |gs| >= |fs| && gs[|gs| - 1] == fs[|fs| - 1]
    ensures ms[|gs| - 1] == ls[|fs| - 1] && ms[|gs|] == ls[|fs|]
  {
    hide Goes, Boot;
    Joined(lock, AcquireEvents(), ls, fs);
    var tail := lock + ls[1..];
    Joined(ks, es, tail, AcquireEvents() + fs);
    ms, gs := ks + tail[1..], es + (AcquireEvents() + fs);
  }

  lemma LostAtEnd(ks: seq<Kernel>, es: seq<Event>, h: Tid)
    requires IsRun(ks, es) && es != [] && es[|es| - 1] == Donate(0)
    requires var k := ks[|es| - 1]; CanDonate(k, 0) && k.ready[k.priority[0]] != [] && k.ready[k.priority[0]][0] == h != 0
    ensures !SafeStep(ks[|es| - 1], Donate(0))
    ensures h in ks[|es|].task && |ks[|es|].ready| == MAX_PRIORITY && Places(ks[|es|], h) == 0
  {
    assert |ks| == |es| + 1;
    assert h in Lost(ks, es, |es|);
    hide IsRun, Places, Lost;
    LostNoneIff(ks, es, |es|);
    ExactlyOnePlace(ks, es, |es|, h);
  }

  /**
   * A run from boot in which main sleeps at a device with a lock in its hands, with no other thread of its
   * priority ready, when thread 2 wants the lock: the donation finds no thread whose name it could take.
   */
  lemma DonationFails() returns (ks: seq<Kernel>, es: seq<Event>)
    ensures IsRun(ks, es) && CanDonate(ks[|es|], 0) && ks[|es|].ready[ks[|es|].priority[0]] == []
  {
    hide Goes;
    ks, es := SetUpPart(false);
    var lock := AcquirePart(ks[|es|], []);
    var k3 := lock[3];
    SleepGoes(k3, 0, 2);
    var k4 := k3.(cpu := Runs(2), ready := k3.ready[1 := k3.ready[1][1..]], task := k3.task[0 := InP(2)], sems := k3.sems[2 := Sem(0, [0])]);
    var k5 := k4.(sems := k4.sems[1 := k4.sems[1].(value := 0)]);
    PGoes(k4, 2, 1);
    ks, es := Completed([k3, k4, k5], [P(2), P(1)], ks, es, lock);
  }
}
