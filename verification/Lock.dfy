/**
 * threads/synch.cc (Lock) over atomic semaphore operations: every interleaving
 * of any number of threads, one statement at a time.
 */
module Locks {
  import opened Kernels

  datatype Option<+T> = None | Some(value: T)

  /** Where a thread stands in Lock::Acquire and Lock::Release. */
  datatype Pc =
    | Outside
    | AtInvP        // about to do semInvP->P()
    | Donating      // between semInvP->P() and semInvP->V()
    | AtInvV        // about to do semInvP->V()
    | AtSemP        // about to do sem->P()
    | AtSetName     // about to do thname = currentThread
    | Inside
    | AtSemV        // about to do sem->V()

  datatype Lock = Lock(sem: nat, inv: nat, thname: Option<Tid>, pc: map<Tid, Pc>)

  /** Lock::Lock */
  function NewLock(): (l: Lock)
  {
    Lock(1, 1, None, map[])
  }

  function PcOf(l: Lock, t: Tid): (p: Pc)
  {
    if t in l.pc then l.pc[t] else Outside
  }

  function MoveTo(l: Lock, t: Tid, p: Pc): (l': Lock)
    ensures forall u :: PcOf(l', u) == if u == t then p else PcOf(l, u)
  {
    l.(pc := l.pc[t := p])
  }

  // ----- the steps -----

  /** A call of Acquire: it returns at once when the thread already has the lock. */
  function Acquire(l: Lock, t: Tid): (l': Lock)
    requires PcOf(l, t) == Outside || PcOf(l, t) == Inside
  {
    if l.thname == Some(t) then l else MoveTo(l, t, AtInvP)
  }

  /** A call of Release up to `sem->V()`; the assertion of the source is the precondition. */
  function Release(l: Lock, t: Tid): (l': Lock)
    requires l.thname == Some(t)
  {
    MoveTo(l.(thname := None), t, AtSemV)
  }

  /** The thread is between two statements of Acquire or Release and not blocked in a P. */
  predicate CanMove(l: Lock, t: Tid)
  {
    match PcOf(l, t)
    case Outside => false
    case Inside => false
    case AtInvP => l.inv > 0
    case AtSemP => l.sem > 0
    case _ => true
  }

  function Move(l: Lock, t: Tid): (l': Lock)
    requires CanMove(l, t)
  {
    match PcOf(l, t)
    case AtInvP => MoveTo(l.(inv := l.inv - 1), t, Donating)
    case Donating => MoveTo(l, t, AtInvV)
    case AtInvV => MoveTo(l.(inv := l.inv + 1), t, AtSemP)
    case AtSemP => MoveTo(l.(sem := l.sem - 1), t, AtSetName)
    case AtSetName => MoveTo(l.(thname := Some(t)), t, Inside)
    case AtSemV => MoveTo(l.(sem := l.sem + 1), t, Outside)
  }

  // ----- the invariant -----

  predicate Holds(p: Pc)
  {
    p == AtSetName || p == Inside || p == AtSemV
  }

  predicate HoldsInv(p: Pc)
  {
    p == Donating || p == AtInvV
  }

  ghost predicate Valid(l: Lock)
  {
    && l.sem <= 1 && l.inv <= 1
    && (forall t, u :: Holds(PcOf(l, t)) && Holds(PcOf(l, u)) ==> t == u)
    && (forall t, u :: HoldsInv(PcOf(l, t)) && HoldsInv(PcOf(l, u)) ==> t == u)
    && (l.sem == 0 <==> exists t :: Holds(PcOf(l, t)))
    && (l.inv == 0 <==> exists t :: HoldsInv(PcOf(l, t)))
    && (forall t: Tid :: l.thname == Some(t) <==> PcOf(l, t) == Inside)
  }

  lemma NewLockIsValid()
    ensures Valid(NewLock())
  {
  }

  lemma AcquireKeepsValid(l: Lock, t: Tid)
    requires Valid(l) && (PcOf(l, t) == Outside || PcOf(l, t) == Inside)
    ensures Valid(Acquire(l, t))
    ensures PcOf(Acquire(l, t), t) == if PcOf(l, t) == Inside then Inside else AtInvP
  {
    var l' := Acquire(l, t);
    assert forall u :: Holds(PcOf(l', u)) <==> Holds(PcOf(l, u));
    assert forall u :: HoldsInv(PcOf(l', u)) <==> HoldsInv(PcOf(l, u));
  }

  lemma ReleaseKeepsValid(l: Lock, t: Tid)
    requires Valid(l) && PcOf(l, t) == Inside
    ensures l.thname == Some(t) && Valid(Release(l, t))
  {
    var l' := Release(l, t);
    assert forall u :: Holds(PcOf(l', u)) <==> Holds(PcOf(l, u));
    assert forall u :: HoldsInv(PcOf(l', u)) <==> HoldsInv(PcOf(l, u));
  }

  lemma MoveKeepsValid(l: Lock, t: Tid)
    requires Valid(l) && CanMove(l, t)
    ensures Valid(Move(l, t))
  {
    var l', p := Move(l, t), PcOf(l, t);
    assert forall u | u != t :: PcOf(l', u) == PcOf(l, u);
    assert p == AtSemP ==> forall u :: !Holds(PcOf(l, u));
    assert p == AtInvP ==> forall u :: !HoldsInv(PcOf(l, u));
    assert p == AtSemV ==> forall u :: !Holds(PcOf(l', u)) by {
      assert Holds(AtSemV);
    }
    assert p == AtInvV ==> forall u :: !HoldsInv(PcOf(l', u)) by {
      assert HoldsInv(AtInvV);
    }
    assert Holds(PcOf(l', t)) || !Holds(p) || p == AtSemV;
  }

  /** A thread that goes on inside the lock leaves Release or stays in Acquire. */
  lemma MoveGoesOn(l: Lock, t: Tid)
    requires CanMove(l, t)
    ensures forall u | u != t :: PcOf(Move(l, t), u) == PcOf(l, u)
    ensures PcOf(l, t) != Outside && PcOf(l, t) != Inside
    ensures if PcOf(l, t) == AtSemV then PcOf(Move(l, t), t) == Outside
            else PcOf(Move(l, t), t) != Outside && PcOf(Move(l, t), t) != AtSemV
  {
  }

  lemma OneInside(l: Lock, t: Tid, u: Tid)
    requires Valid(l) && PcOf(l, t) == Inside && PcOf(l, u) == Inside
    ensures t == u
  {
    assert Holds(PcOf(l, t)) && Holds(PcOf(l, u));
  }

  // ----- runs -----

  /** A thread calls Acquire or Release, or goes on inside one of them. */
  datatype Action = CallAcquire(t: Tid) | CallRelease(t: Tid) | Proceed(t: Tid)

  /** Any thread may call at any time; a Release whose assertion fails ends the program and is no step. */
  ghost predicate Enabled(l: Lock, x: Action)
  {
    match x
    case CallAcquire(t) => PcOf(l, t) == Outside || PcOf(l, t) == Inside
    case CallRelease(t) => (PcOf(l, t) == Outside || PcOf(l, t) == Inside) && l.thname == Some(t)
    case Proceed(t) => CanMove(l, t)
  }

  ghost function Next(l: Lock, x: Action): (l': Lock)
    requires Enabled(l, x)
  {
    match x
    case CallAcquire(t) => Acquire(l, t)
    case CallRelease(t) => Release(l, t)
    case Proceed(t) => Move(l, t)
  }

  ghost predicate IsRun(ls: seq<Lock>, xs: seq<Action>)
  {
    && |ls| == |xs| + 1
    && ls[0] == NewLock()
    && forall i | 0 <= i < |xs| :: Enabled(ls[i], xs[i]) && ls[i + 1] == Next(ls[i], xs[i])
  }

  lemma {:induction false} RunKeepsValid(ls: seq<Lock>, xs: seq<Action>, i: nat)
    requires IsRun(ls, xs) && i < |ls|
    ensures Valid(ls[i])
  {
    if i == 0 {
      NewLockIsValid();
    } else {
      RunKeepsValid(ls, xs, i - 1);
      var l := ls[i - 1];
      match xs[i - 1]
      case CallAcquire(t) => AcquireKeepsValid(l, t);
      case CallRelease(t) => ReleaseKeepsValid(l, t);
      case Proceed(t) => MoveKeepsValid(l, t);
    }
  }

  /** In every interleaving of any number of threads, two are never inside together. */
  lemma MutualExclusion(ls: seq<Lock>, xs: seq<Action>, i: nat, t: Tid, u: Tid)
    requires IsRun(ls, xs) && i < |ls| && PcOf(ls[i], t) == Inside && PcOf(ls[i], u) == Inside
    ensures t == u
  {
    RunKeepsValid(ls, xs, i);
    OneInside(ls[i], t, u);
  }

  /** In every interleaving, the assertion of Release holds for a caller exactly when it is inside. */
  lemma ReleaseAssertion(ls: seq<Lock>, xs: seq<Action>, i: nat, t: Tid)
    requires IsRun(ls, xs) && i < |ls|
    ensures ls[i].thname == Some(t) <==> PcOf(ls[i], t) == Inside
  {
    RunKeepsValid(ls, xs, i);
  }

  /**
   * In every interleaving, a thread at the semaphore can take the lock, or somebody has it and can go on; and
   * a thread before the donation can begin it, or somebody is in it and can go on.
   */
  lemma LockNotLost(ls: seq<Lock>, xs: seq<Action>, i: nat, t: Tid)
    requires IsRun(ls, xs) && i < |ls|
    ensures PcOf(ls[i], t) == AtSemP ==>
      CanMove(ls[i], t) || exists u :: PcOf(ls[i], u) == Inside || (Holds(PcOf(ls[i], u)) && CanMove(ls[i], u))
    ensures PcOf(ls[i], t) == AtInvP ==> CanMove(ls[i], t) || exists u :: HoldsInv(PcOf(ls[i], u)) && CanMove(ls[i], u)
  {
    RunKeepsValid(ls, xs, i);
    var l := ls[i];
    if l.inv == 0 {
      var u :| HoldsInv(PcOf(l, u));
      assert CanMove(l, u);
    }
    if l.sem == 0 {
      var u :| Holds(PcOf(l, u));
      assert PcOf(l, u) == Inside || CanMove(l, u);
    }
  }
}

/** threads/synch.cc (Condition): the semaphores that Wait makes, one per call, and the list of them. */
module Conditions {
  /** `semList->IsEmpty()`, `Remove()` and `V()` of Signal. */
  function Wake(sems: seq<nat>, q: seq<nat>): (r: seq<nat>)
    ensures |r| == |sems| && forall s | 0 <= s < |sems| :: r[s] >= sems[s]
  {
    if q != [] && q[0] < |sems| then sems[q[0] := sems[q[0]] + 1] else sems
  }

  function Rest(q: seq<nat>): (r: seq<nat>)
  {
    if q == [] then q else q[1..]
  }
}
