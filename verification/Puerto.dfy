/**
 * threads/synch.cc (Condition and Puerto): a one-message port built on a lock and
 * two conditions, for any number of senders and receivers in every interleaving.
 * Condition::Wait is as coded: its semaphore starts at 1.
 */
module Puertos {
  import opened Kernels
  import opened Locks
  import opened Conditions

  datatype Role = Sender(msg: int) | Receiver

  /** Where a thread stands in Send or Receive; where it stands in the lock is in the lock. */
  datatype Step =
    | Idle
    | Entering(r: Role)                 // plock->Acquire(), then the loop test
    | WaitNew(r: Role)                  // in Wait: make a semaphore and append it
    | WaitRelease(r: Role, s: nat)      // in Wait: lock->Release()
    | WaitP(r: Role, s: nat)            // in Wait: sem->P()
    | WaitAcquire(r: Role)              // in Wait: lock->Acquire()
    | Transfer(r: Role)                 // buffer = msg, or buf = buffer
    | Flip(r: Role, got: int)           // access = false, or access = true
    | Signal(r: Role)                   // the other side's Signal()
    | Exit                              // plock->Release()

  datatype Port = Port(
    lock: Lock,
    access: bool,
    buffer: int,
    sems: seq<nat>,                     // the values of the semaphores made by Wait
    waitS: seq<nat>,                    // semList of pcondS
    waitR: seq<nat>,                    // semList of pcondR
    at: map<Tid, Step>,
    sent: seq<int>,
    received: seq<int>)

  /** Puerto::Puerto; the buffer is not initialised. */
  function NewPort(junk: int): (p: Port)
  {
    Port(NewLock(), true, junk, [], [], [], map[], [], [])
  }

  function StepOf(p: Port, t: Tid): (a: Step)
  {
    if t in p.at then p.at[t] else Idle
  }

  function Put(p: Port, t: Tid, a: Step): (p': Port)
    ensures forall u :: StepOf(p', u) == if u == t then a else StepOf(p, u)
  {
    p.(at := p.at[t := a])
  }

  // ----- the steps -----

  datatype Action =
    | Call(r: Role)     // a thread enters Send or Receive
    | InLock            // a thread moves on inside Acquire or Release
    | Go                // a thread executes the next statement of the port or the condition

  ghost predicate Enabled(p: Port, t: Tid, x: Action)
  {
    match x
    case Call(r) => StepOf(p, t) == Idle && PcOf(p.lock, t) == Outside
    case InLock => CanMove(p.lock, t)
    case Go =>
      match StepOf(p, t)
      case Idle => false
      case Entering(r) => PcOf(p.lock, t) == Inside
      case WaitP(r, s) => PcOf(p.lock, t) == Outside && (s < |p.sems| ==> p.sems[s] > 0)
      case WaitAcquire(r) => PcOf(p.lock, t) == Outside
      case _ => true
  }

  /** The assertions that the next statement executes: Wait's and Signal's, and Release's; and a P is on a semaphore. */
  predicate Asserts(p: Port, t: Tid)
  {
    match StepOf(p, t)
    case WaitNew(_) => p.lock.thname == Some(t)
    case WaitRelease(_, _) => p.lock.thname == Some(t)
    case WaitP(_, s) => s < |p.sems|
    case Signal(_) => p.lock.thname == Some(t)
    case Exit => p.lock.thname == Some(t)
    case _ => true
  }

  function GoNext(p: Port, t: Tid): (p': Port)
    requires Asserts(p, t)
    requires StepOf(p, t).WaitAcquire? ==> PcOf(p.lock, t) == Outside
    requires StepOf(p, t).WaitP? ==> p.sems[StepOf(p, t).s] > 0
  {
    match StepOf(p, t)
    case Idle => p
    case Entering(r) => Put(p, t, if r.Sender? == p.access then Transfer(r) else WaitNew(r))
    case WaitNew(r) =>
      var s := |p.sems|;
      Put(if r.Sender? then p.(sems := p.sems + [1], waitS := p.waitS + [s])
          else p.(sems := p.sems + [1], waitR := p.waitR + [s]), t, WaitRelease(r, s))
    case WaitRelease(r, s) => Put(p.(lock := Release(p.lock, t)), t, WaitP(r, s))
    case WaitP(r, s) => Put(p.(sems := p.sems[s := p.sems[s] - 1]), t, WaitAcquire(r))
    case WaitAcquire(r) => Put(p.(lock := Acquire(p.lock, t)), t, Entering(r))
    case Transfer(r) =>
      if r.Sender? then Put(p.(buffer := r.msg), t, Flip(r, r.msg)) else Put(p, t, Flip(r, p.buffer))
    case Flip(r, got) =>
      if r.Sender? then Put(p.(access := false, sent := p.sent + [r.msg]), t, Signal(r))
      else Put(p.(access := true, received := p.received + [got]), t, Signal(r))
    case Signal(r) =>
      Put(if r.Sender? then p.(sems := Wake(p.sems, p.waitR), waitR := Rest(p.waitR))
          else p.(sems := Wake(p.sems, p.waitS), waitS := Rest(p.waitS)), t, Exit)
    case Exit => Put(p.(lock := Release(p.lock, t)), t, Idle)
  }

  ghost function Next(p: Port, t: Tid, x: Action): (p': Port)
    requires Enabled(p, t, x) && (x.Go? ==> Asserts(p, t))
  {
    match x
    case Call(r) => Put(p.(lock := Acquire(p.lock, t)), t, Entering(r))
    case InLock => p.(lock := Move(p.lock, t))
    case Go => GoNext(p, t)
  }

  // ----- the invariant -----

  /** The place in the port and the place in the lock fit together. */
  ghost predicate Fits(a: Step, pc: Pc)
  {
    match a
    case Idle => pc == Outside || pc == AtSemV
    case Entering(r) => pc != Outside && pc != AtSemV
    case WaitP(r, s) => pc == Outside || pc == AtSemV
    case WaitAcquire(r) => pc == Outside
    case _ => pc == Inside
  }

  /** What the thread in the monitor has established. */
  ghost predicate Claim(p: Port, a: Step)
  {
    match a
    case Transfer(r) => r.Sender? == p.access
    case Flip(r, got) => r.Sender? == p.access && p.buffer == got && (r.Sender? ==> got == r.msg)
    case WaitRelease(r, s) => s < |p.sems| && p.sems[s] > 0
    case WaitP(r, s) => s < |p.sems| && p.sems[s] > 0
    case _ => true
  }

  /** The semaphore that a thread in Wait made for itself. */
  ghost function Own(a: Step): (o: Option<nat>)
  {
    match a
    case WaitRelease(_, s) => Some(s)
    case WaitP(_, s) => Some(s)
    case _ => None
  }

  /** Every message sent has been received, except the one in a full buffer. */
  ghost predicate Conserved(p: Port)
  {
    p.sent == p.received + if p.access then [] else [p.buffer]
  }

  ghost predicate Valid(p: Port)
  {
    && Locks.Valid(p.lock)
    && (forall t :: Fits(StepOf(p, t), PcOf(p.lock, t)))
    && (forall t :: Claim(p, StepOf(p, t)))
    && (forall t, u :: Own(StepOf(p, t)).Some? && Own(StepOf(p, t)) == Own(StepOf(p, u)) ==> t == u)
    && Conserved(p)
  }

  lemma NewPortIsValid(junk: int)
    ensures Valid(NewPort(junk))
  {
    NewLockIsValid();
  }

  // ----- every step keeps it -----

  /** What has to be shown of a step of thread t. */
  lemma StepKeepsValid(p: Port, p': Port, t: Tid)
    requires Valid(p) && Locks.Valid(p'.lock) && Conserved(p')
    requires forall u | u != t :: PcOf(p'.lock, u) == PcOf(p.lock, u) && StepOf(p', u) == StepOf(p, u)
    requires Fits(StepOf(p', t), PcOf(p'.lock, t)) && Claim(p', StepOf(p', t))
    requires forall u | u != t :: Claim(p', StepOf(p, u))
    requires Own(StepOf(p', t)).Some? ==> forall u | u != t :: Own(StepOf(p, u)) != Own(StepOf(p', t))
    ensures Valid(p')
  {
  }

  /** Claims are not about the lock or about the places of the threads. */
  lemma ClaimsKept(p: Port, p': Port)
    requires Valid(p) && p' == p.(lock := p'.lock, at := p'.at)
    ensures forall u :: Claim(p', StepOf(p, u))
  {
    forall u
      ensures Claim(p', StepOf(p, u))
    {
      assert Claim(p, StepOf(p, u));
    }
  }

  lemma CallKeepsValid(p: Port, t: Tid, r: Role)
    requires Valid(p) && Enabled(p, t, Call(r))
    ensures Valid(Next(p, t, Call(r)))
  {
    AcquireKeepsValid(p.lock, t);
    ClaimsKept(p, Next(p, t, Call(r)));
    StepKeepsValid(p, Next(p, t, Call(r)), t);
  }

  lemma InLockKeepsValid(p: Port, t: Tid)
    requires Valid(p) && Enabled(p, t, InLock)
    ensures Valid(Next(p, t, InLock))
  {
    var p' := Next(p, t, InLock);
    MoveKeepsValid(p.lock, t);
    MoveGoesOn(p.lock, t);
    hide Move, CanMove;
    assert Fits(StepOf(p, t), PcOf(p.lock, t));
    ClaimsKept(p, p');
    StepKeepsValid(p, p', t);
  }

  /** The others are outside the monitor, where a claim is only about their own semaphore. */
  lemma OthersKeepClaims(p: Port, p': Port, t: Tid)
    requires Valid(p) && PcOf(p.lock, t) == Inside
    requires |p.sems| <= |p'.sems|
    requires forall s | 0 <= s < |p.sems| && p.sems[s] > 0 :: p'.sems[s] > 0
    ensures forall u | u != t :: Claim(p', StepOf(p, u))
  {
    forall u | u != t
      ensures Claim(p', StepOf(p, u))
    {
      assert Claim(p, StepOf(p, u)) && Fits(StepOf(p, u), PcOf(p.lock, u));
      if PcOf(p.lock, u) == Inside {
        OneInside(p.lock, t, u);
      }
    }
  }

  lemma EnteringKeepsValid(p: Port, t: Tid)
    requires Valid(p) && Enabled(p, t, Go) && Asserts(p, t) && StepOf(p, t).Entering?
    ensures Valid(GoNext(p, t))
  {
    var p' := GoNext(p, t);
    OthersKeepClaims(p, p', t);
    StepKeepsValid(p, p', t);
  }

  lemma WaitNewKeepsValid(p: Port, t: Tid)
    requires Valid(p) && Enabled(p, t, Go) && Asserts(p, t) && StepOf(p, t).WaitNew?
    ensures Valid(GoNext(p, t))
  {
    var p' := GoNext(p, t);
    assert Fits(StepOf(p, t), PcOf(p.lock, t));
    OthersKeepClaims(p, p', t);
    forall u | u != t
      ensures Own(StepOf(p, u)) != Some(|p.sems|)
    {
      assert Claim(p, StepOf(p, u));
    }
    StepKeepsValid(p, p', t);
  }

  lemma TransferKeepsValid(p: Port, t: Tid)
    requires Valid(p) && Enabled(p, t, Go) && Asserts(p, t) && (StepOf(p, t).Transfer? || StepOf(p, t).Flip? || StepOf(p, t).Signal?)
    ensures Valid(GoNext(p, t))
  {
    var p' := GoNext(p, t);
    assert Fits(StepOf(p, t), PcOf(p.lock, t)) && Claim(p, StepOf(p, t));
    OthersKeepClaims(p, p', t);
    StepKeepsValid(p, p', t);
  }

  lemma ReleasingKeepsValid(p: Port, t: Tid)
    requires Valid(p) && Enabled(p, t, Go) && Asserts(p, t) && (StepOf(p, t).WaitRelease? || StepOf(p, t).Exit?)
    ensures Valid(GoNext(p, t))
  {
    var p' := GoNext(p, t);
    assert Fits(StepOf(p, t), PcOf(p.lock, t)) && Claim(p, StepOf(p, t));
    ReleaseKeepsValid(p.lock, t);
    OthersKeepClaims(p, p', t);
    StepKeepsValid(p, p', t);
  }

  lemma WaitPKeepsValid(p: Port, t: Tid)
    requires Valid(p) && Enabled(p, t, Go) && Asserts(p, t) && StepOf(p, t).WaitP?
    ensures Valid(GoNext(p, t))
  {
    var p', s := GoNext(p, t), StepOf(p, t).s;
    forall u | u != t
      ensures Claim(p', StepOf(p, u))
    {
      assert Claim(p, StepOf(p, u));
      assert Own(StepOf(p, t)) == Some(s) && Own(StepOf(p, u)) != Some(s);
    }
    StepKeepsValid(p, p', t);
  }

  lemma WaitAcquireKeepsValid(p: Port, t: Tid)
    requires Valid(p) && Enabled(p, t, Go) && Asserts(p, t) && StepOf(p, t).WaitAcquire?
    ensures Valid(GoNext(p, t))
  {
    var p' := GoNext(p, t);
    AcquireKeepsValid(p.lock, t);
    forall u | u != t
      ensures Claim(p', StepOf(p, u))
    {
      assert Claim(p, StepOf(p, u));
    }
    StepKeepsValid(p, p', t);
  }

  /** Whoever executes Wait, Signal or Release in the port holds the lock, and every P is on a semaphore. */
  lemma AssertionsHold(p: Port, t: Tid)
    requires Valid(p)
    ensures Asserts(p, t)
  {
    assert Fits(StepOf(p, t), PcOf(p.lock, t)) && Claim(p, StepOf(p, t));
  }

  /** Every step of every thread keeps the invariant. */
  lemma NextKeepsValid(p: Port, t: Tid, x: Action)
    requires Valid(p) && Enabled(p, t, x)
    ensures x.Go? ==> Asserts(p, t)
    ensures Valid(Next(p, t, x))
  {
    AssertionsHold(p, t);
    hide Valid;
    match x
    case Call(r) => CallKeepsValid(p, t, r);
    case InLock => InLockKeepsValid(p, t);
    case Go =>
      match StepOf(p, t)
      case Entering(_) => EnteringKeepsValid(p, t);
      case WaitNew(_) => WaitNewKeepsValid(p, t);
      case WaitP(_, _) => WaitPKeepsValid(p, t);
      case WaitAcquire(_) => WaitAcquireKeepsValid(p, t);
      case WaitRelease(_, _) => ReleasingKeepsValid(p, t);
      case Exit => ReleasingKeepsValid(p, t);
      case _ => TransferKeepsValid(p, t);
  }

  /** Wait never blocks on its semaphore, because it starts at 1 and only its maker takes from it. */
  lemma WaitDoesNotWait(p: Port, t: Tid)
    requires Valid(p) && StepOf(p, t).WaitP? && PcOf(p.lock, t) == Outside
    ensures Enabled(p, t, Go)
  {
    assert Claim(p, StepOf(p, t));
  }

  // ----- runs -----

  datatype Event = Event(t: Tid, x: Action)

  ghost predicate IsRun(ps: seq<Port>, es: seq<Event>)
  {
    && |ps| == |es| + 1
    && (exists junk :: ps[0] == NewPort(junk))
    && forall i | 0 <= i < |es| ::
         && Enabled(ps[i], es[i].t, es[i].x)
         && ((es[i].x.Go? ==> Asserts(ps[i], es[i].t)) ==> ps[i + 1] == Next(ps[i], es[i].t, es[i].x))
  }

  lemma {:induction false} RunKeepsValid(ps: seq<Port>, es: seq<Event>, i: nat)
    requires IsRun(ps, es) && i < |ps|
    ensures Valid(ps[i])
  {
    if i == 0 {
      var junk :| ps[0] == NewPort(junk);
      NewPortIsValid(junk);
    } else {
      RunKeepsValid(ps, es, i - 1);
      NextKeepsValid(ps[i - 1], es[i - 1].t, es[i - 1].x);
    }
  }

  /** In every run no assertion fails. */
  lemma RunIsSafe(ps: seq<Port>, es: seq<Event>, i: nat, t: Tid)
    requires IsRun(ps, es) && i < |ps|
    ensures Asserts(ps[i], t)
  {
    RunKeepsValid(ps, es, i);
    AssertionsHold(ps[i], t);
  }

  // ----- what is sent and what is received -----

  /** What the thread called last, before step i. */
  ghost function CallOf(es: seq<Event>, i: nat, t: Tid): (r: Option<Role>)
    requires i <= |es|
  {
    if i == 0 then None
    else if es[i - 1].t == t && es[i - 1].x.Call? then Some(es[i - 1].x.r)
    else CallOf(es, i - 1, t)
  }

  ghost function RoleOf(a: Step): (r: Option<Role>)
  {
    if a.Idle? || a.Exit? then None else Some(a.r)
  }

  /** A thread inside Send or Receive does what it was called for. */
  lemma {:induction false} RoleIsCall(ps: seq<Port>, es: seq<Event>, i: nat, t: Tid)
    requires IsRun(ps, es) && i < |ps| && RoleOf(StepOf(ps[i], t)).Some?
    ensures RoleOf(StepOf(ps[i], t)) == CallOf(es, i, t)
  {
    if i > 0 {
      RunIsSafe(ps, es, i - 1, es[i - 1].t);
      if es[i - 1].t != t || !es[i - 1].x.Call? {
        RoleIsCall(ps, es, i - 1, t);
      }
    }
  }

  /** The messages with which Send was called by those who have filled the buffer, in this order. */
  ghost function SentBy(ps: seq<Port>, es: seq<Event>, i: nat): (ms: seq<int>)
    requires i <= |es| && |ps| == |es| + 1
  {
    if i == 0 then []
    else
      var r := CallOf(es, i - 1, es[i - 1].t);
      SentBy(ps, es, i - 1) + if ps[i - 1].access && !ps[i].access && r.Some? && r.value.Sender? then [r.value.msg] else []
  }

  /** What those who have emptied the buffer have in their variable, in this order. */
  ghost function ReceivedBy(ps: seq<Port>, es: seq<Event>, i: nat): (ms: seq<int>)
    requires i <= |es| && |ps| == |es| + 1
  {
    if i == 0 then []
    else
      var a := StepOf(ps[i - 1], es[i - 1].t);
      ReceivedBy(ps, es, i - 1) + if !ps[i - 1].access && ps[i].access && a.Flip? then [a.got] else []
  }

  lemma LogStep(p: Port, t: Tid, x: Action)
    requires Valid(p) && Enabled(p, t, x) && (x.Go? ==> Asserts(p, t))
    ensures var p', a := Next(p, t, x), StepOf(p, t);
            && p'.sent == p.sent + (if p.access && !p'.access && a.Flip? && a.r.Sender? then [a.r.msg] else [])
            && p'.received == p.received + (if !p.access && p'.access && a.Flip? then [a.got] else [])
            && (p.access && !p'.access ==> a.Flip?)
  {
    assert Claim(p, StepOf(p, t));
    hide Valid, Claim;
  }

  lemma {:induction false} LogsAreCalls(ps: seq<Port>, es: seq<Event>, i: nat)
    requires IsRun(ps, es) && i < |ps|
    ensures ps[i].sent == SentBy(ps, es, i) && ps[i].received == ReceivedBy(ps, es, i)
  {
    if i > 0 {
      LogsAreCalls(ps, es, i - 1);
      RunKeepsValid(ps, es, i - 1);
      var p, t := ps[i - 1], es[i - 1].t;
      RunIsSafe(ps, es, i - 1, t);
      hide Next, Enabled, Asserts, Valid;
      LogStep(p, t, es[i - 1].x);
      if StepOf(p, t).Flip? {
        RoleIsCall(ps, es, i - 1, t);
      }
    }
  }

  /** In every run the messages received are those that Send was called with, in order, up to the one in the buffer. */
  lemma NothingLost(ps: seq<Port>, es: seq<Event>, i: nat)
    requires IsRun(ps, es) && i < |ps|
    ensures SentBy(ps, es, i) == ReceivedBy(ps, es, i) + if ps[i].access then [] else [ps[i].buffer]
  {
    RunKeepsValid(ps, es, i);
    LogsAreCalls(ps, es, i);
  }
}
