/**
 * network/post.cc (Send and PacketSent) over machine/network.cc (Send and SendDone): the handshake of any
 * number of sending threads of one machine with its network, the interrupt coming at any later moment.
 */
module Senders {
  import opened Kernels
  import opened Locks
  import opened Packets

  /** Where a thread stands in PostOffice::Send, with the packet that it has made. */
  datatype Step =
    | Idle
    | Entering(m: Mail)           // sendLock->Acquire(), then network->Send()
    | Waiting(m: Mail, n: nat)    // messageSent->P()
    | Leaving(m: Mail, n: nat)    // sendLock->Release()

  datatype Desk = Desk(
    lock: Lock,
    value: nat,                   // of messageSent
    pending: nat,                 // NetworkSendInt interrupts scheduled and not yet handled
    at: map<Tid, Step>,
    sent: seq<Mail>,              // in the order of the calls of Network::Send
    completed: nat,               // interrupts handled
    returned: seq<Mail>)          // in the order in which PostOffice::Send returned

  function NewDesk(): (d: Desk)
  {
    Desk(NewLock(), 0, 0, map[], [], 0, [])
  }

  function StepOf(d: Desk, t: Tid): (a: Step)
  {
    if t in d.at then d.at[t] else Idle
  }

  function Put(d: Desk, t: Tid, a: Step): (d': Desk)
    ensures forall u :: StepOf(d', u) == if u == t then a else StepOf(d, u)
  {
    d.(at := d.at[t := a])
  }

  // ----- the steps -----

  datatype Action =
    | Call(t: Tid, m: Mail)
    | InLock(t: Tid)              // a thread moves on inside Acquire or Release
    | Go(t: Tid)                  // a thread executes its next statement
    | SendDone                    // the interrupt, which calls PacketSent

  ghost predicate Enabled(d: Desk, x: Action)
  {
    match x
    case Call(t, m) => StepOf(d, t) == Idle && PcOf(d.lock, t) == Outside
    case InLock(t) => CanMove(d.lock, t)
    case SendDone => d.pending > 0
    case Go(t) =>
      match StepOf(d, t)
      case Idle => false
      case Entering(_) => PcOf(d.lock, t) == Inside
      case Waiting(_, _) => d.value > 0
      case Leaving(_, _) => true
  }

  /** The assertion of Release. */
  predicate Asserts(d: Desk, t: Tid)
  {
    StepOf(d, t).Leaving? ==> d.lock.thname == Some(t)
  }

  function GoNext(d: Desk, t: Tid): (d': Desk)
    requires Asserts(d, t) && (StepOf(d, t).Waiting? ==> d.value > 0)
  {
    match StepOf(d, t)
    case Idle => d
    case Entering(m) => Put(d.(pending := d.pending + 1, sent := d.sent + [m]), t, Waiting(m, |d.sent|))
    case Waiting(m, n) => Put(d.(value := d.value - 1), t, Leaving(m, n))
    case Leaving(m, n) => Put(d.(lock := Release(d.lock, t), returned := d.returned + [m]), t, Idle)
  }

  ghost function Next(d: Desk, x: Action): (d': Desk)
    requires Enabled(d, x) && (x.Go? ==> Asserts(d, x.t))
  {
    match x
    case Call(t, m) => Put(d.(lock := Acquire(d.lock, t)), t, Entering(m))
    case InLock(t) => d.(lock := Move(d.lock, t))
    case Go(t) => GoNext(d, t)
    case SendDone => d.(pending := d.pending - 1, completed := d.completed + 1, value := d.value + 1)
  }

  // ----- the invariant -----

  ghost predicate Fits(a: Step, pc: Pc)
  {
    match a
    case Idle => pc == Outside || pc == AtSemV
    case Entering(_) => pc != Outside && pc != AtSemV
    case _ => pc == Inside
  }

  predicate Served(a: Step)
  {
    a.Waiting? || a.Leaving?
  }

  /** The packet of the sender in the lock is the last one, and its interrupt or its V is the only one there is. */
  ghost predicate Claim(d: Desk, a: Step)
  {
    Served(a) ==>
      && a.n == |d.sent| - 1 == |d.returned| && d.sent == d.returned + [a.m]
      && d.pending + d.value == (if a.Waiting? then 1 else 0) && d.completed + d.pending == |d.sent|
  }

  /** Every packet has been sent, completed and returned from. */
  ghost predicate Quiet(d: Desk)
  {
    d.pending == 0 && d.value == 0 && d.completed == |d.sent| && d.returned == d.sent
  }

  ghost predicate Valid(d: Desk)
  {
    && Locks.Valid(d.lock)
    && (forall t :: Fits(StepOf(d, t), PcOf(d.lock, t)))
    && (forall t :: Claim(d, StepOf(d, t)))
    && (Quiet(d) || exists t :: Served(StepOf(d, t)))
  }

  lemma NewDeskIsValid()
    ensures Valid(NewDesk())
  {
    NewLockIsValid();
  }

  // ----- every step keeps it -----

  lemma OthersNotServed(d: Desk, t: Tid)
    requires Valid(d) && PcOf(d.lock, t) == Inside
    ensures forall u | u != t :: !Served(StepOf(d, u))
  {
    forall u | u != t
      ensures !Served(StepOf(d, u))
    {
      assert Fits(StepOf(d, u), PcOf(d.lock, u));
      if PcOf(d.lock, u) == Inside {
        OneInside(d.lock, t, u);
      }
    }
  }

  /** The assertion of Release holds for whoever comes to it. */
  lemma AssertionsHold(d: Desk, t: Tid)
    requires Valid(d)
    ensures Asserts(d, t)
  {
    assert Fits(StepOf(d, t), PcOf(d.lock, t));
  }

  /** A step that leaves the network and the semaphore alone. */
  lemma LockStepKeepsValid(d: Desk, d': Desk, t: Tid)
    requires Valid(d) && Locks.Valid(d'.lock) && d' == d.(lock := d'.lock, at := d'.at)
    requires forall u | u != t :: PcOf(d'.lock, u) == PcOf(d.lock, u) && StepOf(d', u) == StepOf(d, u)
    requires Fits(StepOf(d', t), PcOf(d'.lock, t))
    requires if Served(StepOf(d, t)) then StepOf(d', t) == StepOf(d, t) else !Served(StepOf(d', t))
    ensures Valid(d')
  {
    forall u
      ensures Claim(d', StepOf(d', u))
    {
      assert Claim(d, StepOf(d, u));
    }
    if !Quiet(d) {
      var u :| Served(StepOf(d, u));
      assert Served(StepOf(d', u));
    }
  }

  /** A step of the thread inside the lock, or of the network for it. */
  lemma InsideStepKeepsValid(d: Desk, d': Desk, t: Tid)
    requires Valid(d) && PcOf(d.lock, t) == Inside && Locks.Valid(d'.lock)
    requires forall u | u != t :: PcOf(d'.lock, u) == PcOf(d.lock, u) && StepOf(d', u) == StepOf(d, u)
    requires Fits(StepOf(d', t), PcOf(d'.lock, t)) && Claim(d', StepOf(d', t))
    requires Quiet(d') || Served(StepOf(d', t))
    ensures Valid(d')
  {
    OthersNotServed(d, t);
    assert forall u | u != t :: Fits(StepOf(d, u), PcOf(d.lock, u));
  }

  lemma GoKeepsValid(d: Desk, t: Tid)
    requires Valid(d) && Enabled(d, Go(t)) && Asserts(d, t)
    ensures Valid(GoNext(d, t))
  {
    assert Fits(StepOf(d, t), PcOf(d.lock, t)) && Claim(d, StepOf(d, t));
    OthersNotServed(d, t);
    if StepOf(d, t).Leaving? {
      ReleaseKeepsValid(d.lock, t);
    }
    InsideStepKeepsValid(d, GoNext(d, t), t);
  }

  lemma SendDoneKeepsValid(d: Desk)
    requires Valid(d) && Enabled(d, SendDone)
    ensures Valid(Next(d, SendDone))
  {
    var t :| Served(StepOf(d, t));
    assert Fits(StepOf(d, t), PcOf(d.lock, t)) && Claim(d, StepOf(d, t));
    var d' := Next(d, SendDone);
    assert StepOf(d', t) == StepOf(d, t);
    InsideStepKeepsValid(d, d', t);
  }

  lemma NextKeepsValid(d: Desk, x: Action)
    requires Valid(d) && Enabled(d, x)
    ensures x.Go? ==> Asserts(d, x.t)
    ensures Valid(Next(d, x))
  {
    match x
    case Call(t, m) =>
      AcquireKeepsValid(d.lock, t);
      LockStepKeepsValid(d, Next(d, x), t);
    case InLock(t) =>
      MoveKeepsValid(d.lock, t);
      MoveGoesOn(d.lock, t);
      assert Fits(StepOf(d, t), PcOf(d.lock, t));
      LockStepKeepsValid(d, Next(d, x), t);
    case Go(t) =>
      AssertionsHold(d, t);
      GoKeepsValid(d, t);
    case SendDone => SendDoneKeepsValid(d);
  }

  // ----- runs -----

  ghost predicate IsRun(ds: seq<Desk>, xs: seq<Action>)
  {
    && |ds| == |xs| + 1
    && ds[0] == NewDesk()
    && forall i | 0 <= i < |xs| ::
         Enabled(ds[i], xs[i]) && ((xs[i].Go? ==> Asserts(ds[i], xs[i].t)) ==> ds[i + 1] == Next(ds[i], xs[i]))
  }

  lemma {:induction false} RunKeepsValid(ds: seq<Desk>, xs: seq<Action>, i: nat)
    requires IsRun(ds, xs) && i < |ds|
    ensures Valid(ds[i])
  {
    hide Valid, Next, Enabled, Asserts;
    if i == 0 {
      NewDeskIsValid();
    } else {
      RunKeepsValid(ds, xs, i - 1);
      NextKeepsValid(ds[i - 1], xs[i - 1]);
    }
  }

  /** The packet with which the thread called Send last, before step i. */
  ghost function CallOf(xs: seq<Action>, i: nat, t: Tid): (m: Option<Mail>)
    requires i <= |xs|
  {
    if i == 0 then None
    else if xs[i - 1].Call? && xs[i - 1].t == t then Some(xs[i - 1].m)
    else CallOf(xs, i - 1, t)
  }

  lemma StillCalled(d: Desk, x: Action, t: Tid)
    requires Enabled(d, x) && (x.Go? ==> Asserts(d, x.t)) && !(x.Call? && x.t == t)
    ensures var a := StepOf(Next(d, x), t); !a.Idle? ==> !StepOf(d, t).Idle? && a.m == StepOf(d, t).m
  {
  }

  /** Whoever is inside Send was called for this packet. */
  lemma {:induction false} PacketIsCall(ds: seq<Desk>, xs: seq<Action>, i: nat, t: Tid)
    requires IsRun(ds, xs) && i < |ds| && !StepOf(ds[i], t).Idle?
    ensures CallOf(xs, i, t) == Some(StepOf(ds[i], t).m)
  {
    if i > 0 {
      RunKeepsValid(ds, xs, i - 1);
      NextKeepsValid(ds[i - 1], xs[i - 1]);
      if !(xs[i - 1].Call? && xs[i - 1].t == t) {
        StillCalled(ds[i - 1], xs[i - 1], t);
        PacketIsCall(ds, xs, i - 1, t);
      }
    }
  }

  ghost function CalledWith(xs: seq<Action>, i: nat): (ms: seq<Mail>)
    requires i < |xs|
  {
    var m := if xs[i].Go? then CallOf(xs, i, xs[i].t) else None;
    if m.Some? then [m.value] else []
  }

  /** The packets of the calls that have handed one to the network, in this order. */
  ghost function SentBy(ds: seq<Desk>, xs: seq<Action>, i: nat): (ms: seq<Mail>)
    requires i <= |xs| && |ds| == |xs| + 1
  {
    if i == 0 then []
    else SentBy(ds, xs, i - 1) + if ds[i].pending > ds[i - 1].pending then CalledWith(xs, i - 1) else []
  }

  /** The packets of the calls that have returned, in this order. */
  ghost function ReturnedBy(ds: seq<Desk>, xs: seq<Action>, i: nat): (ms: seq<Mail>)
    requires i <= |xs| && |ds| == |xs| + 1
  {
    if i == 0 then []
    else
      ReturnedBy(ds, xs, i - 1) +
        if xs[i - 1].Go? && StepOf(ds[i], xs[i - 1].t).Idle? then CalledWith(xs, i - 1) else []
  }

  lemma LogStep(d: Desk, x: Action)
    requires Enabled(d, x) && (x.Go? ==> Asserts(d, x.t))
    ensures var d', ms := Next(d, x), if x.Go? && !StepOf(d, x.t).Idle? then [StepOf(d, x.t).m] else [];
            && d'.sent == d.sent + (if d'.pending > d.pending then ms else [])
            && d'.returned == d.returned + (if x.Go? && StepOf(d', x.t).Idle? then ms else [])
            && (x.Go? ==> !StepOf(d, x.t).Idle?)
  {
  }

  lemma {:induction false} LogsAreCalls(ds: seq<Desk>, xs: seq<Action>, i: nat)
    requires IsRun(ds, xs) && i < |ds|
    ensures ds[i].sent == SentBy(ds, xs, i) && ds[i].returned == ReturnedBy(ds, xs, i)
  {
    if i > 0 {
      LogsAreCalls(ds, xs, i - 1);
      RunKeepsValid(ds, xs, i - 1);
      var x := xs[i - 1];
      NextKeepsValid(ds[i - 1], x);
      hide Next, Enabled, Asserts, Valid;
      LogStep(ds[i - 1], x);
      if x.Go? {
        PacketIsCall(ds, xs, i - 1, x.t);
      }
    }
  }

  /**
   * In every run of any number of senders: at most one packet is outstanding and none when Network::Send is
   * called, the assertion of Release holds, the P of a sender passes exactly after the interrupt for its own
   * packet, and the calls return in the order in which their packets were sent, all but at most the last of them.
   */
  lemma OneAtATime(ds: seq<Desk>, xs: seq<Action>, i: nat, t: Tid)
    requires IsRun(ds, xs) && i < |ds|
    ensures ds[i].pending <= 1 && Asserts(ds[i], t)
    ensures StepOf(ds[i], t).Entering? && Enabled(ds[i], Go(t)) ==> ds[i].pending == 0
    ensures StepOf(ds[i], t).Waiting? ==>
      && StepOf(ds[i], t).n == |ds[i].sent| - 1 && ds[i].sent[StepOf(ds[i], t).n] == StepOf(ds[i], t).m
      && (Enabled(ds[i], Go(t)) <==> ds[i].completed == StepOf(ds[i], t).n + 1)
      && (Enabled(ds[i], Go(t)) || Enabled(ds[i], SendDone))
    ensures var sent, returned := SentBy(ds, xs, i), ReturnedBy(ds, xs, i);
            ds[i].sent == sent && returned <= sent && |sent| <= |returned| + 1
  {
    RunKeepsValid(ds, xs, i);
    LogsAreCalls(ds, xs, i);
    hide IsRun;
    var d := ds[i];
    AssertionsHold(d, t);
    assert Claim(d, StepOf(d, t));
    if PcOf(d.lock, t) == Inside {
      OthersNotServed(d, t);
    }
    if !Quiet(d) {
      var u :| Served(StepOf(d, u));
      assert Claim(d, StepOf(d, u));
    }
  }
}
