/**
 * filesys/synchdisk.cc over machine/disk.cc: any number of threads calling
 * ReadSector and WriteSector, with the disk interrupt coming at any later moment.
 */
module SynchDisks {
  import opened Kernels
  import opened Locks
  import opened Headers

  datatype Request = Read(sector: nat) | Write(sector: nat, data: Sector)

  /** Where a thread stands in ReadSector or WriteSector; n is the number of its request. */
  datatype Step =
    | Idle
    | Entering(q: Request)                      // lock->Acquire(), then the disk request
    | Waiting(q: Request, n: nat, got: Sector)  // semaphore->P()
    | Leaving(q: Request, n: nat, got: Sector)  // lock->Release()

  /** A call that has returned, and what it found in its sector. */
  datatype Outcome = Outcome(q: Request, got: Sector)

  datatype Driver = Driver(
    lock: Lock,
    value: nat,               // of the semaphore
    active: bool,             // the disk's flag
    pending: nat,             // DiskInt interrupts scheduled and not yet handled
    initial: Image,
    sectors: Image,
    at: map<Tid, Step>,
    log: seq<Request>,        // the requests, in the order in which the disk carried them out
    completed: nat,           // interrupts handled
    finished: seq<Outcome>)

  /** SynchDisk::SynchDisk */
  function NewDriver(d: Image): (s: Driver)
  {
    Driver(NewLock(), 0, false, 0, d, d, map[], [], 0, [])
  }

  function StepOf(s: Driver, t: Tid): (a: Step)
  {
    if t in s.at then s.at[t] else Idle
  }

  function Put(s: Driver, t: Tid, a: Step): (s': Driver)
    ensures forall u :: StepOf(s', u) == if u == t then a else StepOf(s, u)
  {
    s.(at := s.at[t := a])
  }

  // ----- the atomic array -----

  predicate InRange(q: Request)
  {
    q.sector < NUM_SECTORS
  }

  function Apply(d: Image, q: Request): (d': Image)
    requires InRange(q)
  {
    match q
    case Read(_) => d
    case Write(i, x) => d[i := x]
  }

  ghost predicate AllInRange(log: seq<Request>)
  {
    forall i | 0 <= i < |log| :: InRange(log[i])
  }

  /** The array after the requests, one after the other. */
  ghost function Replay(d: Image, log: seq<Request>): (d': Image)
    requires AllInRange(log)
  {
    if log == [] then d else Apply(Replay(d, log[..|log| - 1]), log[|log| - 1])
  }

  // ----- the steps -----

  datatype Action =
    | Call(t: Tid, q: Request)
    | InLock(t: Tid)          // a thread moves on inside Acquire or Release
    | Go(t: Tid)              // a thread executes its next statement
    | Interrupt               // Disk::HandleInterrupt, which calls RequestDone

  ghost predicate Enabled(s: Driver, x: Action)
  {
    match x
    case Call(t, q) => StepOf(s, t) == Idle && PcOf(s.lock, t) == Outside && InRange(q)
    case InLock(t) => CanMove(s.lock, t)
    case Interrupt => s.pending > 0
    case Go(t) =>
      match StepOf(s, t)
      case Idle => false
      case Entering(_) => PcOf(s.lock, t) == Inside
      case Waiting(_, _, _) => s.value > 0
      case Leaving(_, _, _) => true
  }

  /** The assertions that a step executes: Disk's `!active` and Lock's ownership test. */
  predicate Asserts(s: Driver, t: Tid)
  {
    match StepOf(s, t)
    case Entering(q) => !s.active && InRange(q)
    case Leaving(_, _, _) => s.lock.thname == Some(t)
    case _ => true
  }

  /** ReadRequest and WriteRequest transfer the data at once; only the notification comes later. */
  function Issue(s: Driver, t: Tid, q: Request): (s': Driver)
    requires InRange(q)
  {
    Put(s.(active := true, pending := s.pending + 1, sectors := Apply(s.sectors, q), log := s.log + [q]),
        t, Waiting(q, |s.log|, s.sectors[q.sector]))
  }

  function GoNext(s: Driver, t: Tid): (s': Driver)
    requires Asserts(s, t)
    requires StepOf(s, t).Waiting? ==> s.value > 0
  {
    match StepOf(s, t)
    case Idle => s
    case Entering(q) => Issue(s, t, q)
    case Waiting(q, n, got) => Put(s.(value := s.value - 1), t, Leaving(q, n, got))
    case Leaving(q, n, got) =>
      Put(s.(lock := Release(s.lock, t), finished := s.finished + [Outcome(q, got)]), t, Idle)
  }

  function HandleInterrupt(s: Driver): (s': Driver)
    requires s.pending > 0
  {
    s.(pending := s.pending - 1, active := false, completed := s.completed + 1, value := s.value + 1)
  }

  ghost function Next(s: Driver, x: Action): (s': Driver)
    requires Enabled(s, x) && (x.Go? ==> Asserts(s, x.t))
  {
    match x
    case Call(t, q) => Put(s.(lock := Acquire(s.lock, t)), t, Entering(q))
    case InLock(t) => s.(lock := Move(s.lock, t))
    case Go(t) => GoNext(s, t)
    case Interrupt => HandleInterrupt(s)
  }

  // ----- the invariant -----

  ghost predicate Fits(a: Step, pc: Pc)
  {
    match a
    case Idle => pc == Outside || pc == AtSemV
    case Entering(q) => pc != Outside && pc != AtSemV && InRange(q)
    case _ => pc == Inside
  }

  /** No request is under way. */
  ghost predicate Quiet(s: Driver)
  {
    !s.active && s.pending == 0 && s.value == 0 && s.completed == |s.log|
  }

  /** The last request is under way, or its completion has not been taken yet. */
  ghost predicate Busy(s: Driver)
  {
    if s.active then s.pending == 1 && s.value == 0 && s.completed + 1 == |s.log|
    else s.pending == 0 && s.value == 1 && s.completed == |s.log|
  }

  /** Request n is q, and got is what the atomic array held when its turn came. */
  ghost predicate Answered(d: Image, log: seq<Request>, q: Request, n: nat, got: Sector)
  {
    && AllInRange(log)
    && n < |log| && log[n] == q
    && got == Replay(d, log[..n])[q.sector]
  }

  ghost predicate Claim(s: Driver, a: Step)
  {
    match a
    case Idle => true
    case Entering(q) => true
    case Waiting(q, n, got) => n == |s.log| - 1 == |s.finished| && Busy(s) && Answered(s.initial, s.log, q, n, got)
    case Leaving(q, n, got) => n == |s.log| - 1 == |s.finished| && Quiet(s) && Answered(s.initial, s.log, q, n, got)
  }

  /** The thread's request has been issued and its call has not returned. */
  predicate Served(a: Step)
  {
    a.Waiting? || a.Leaving?
  }

  /** The k-th call to return carried out the k-th request. */
  ghost predicate OutcomeOk(s: Driver, o: Outcome, k: nat)
  {
    Answered(s.initial, s.log, o.q, k, o.got)
  }

  ghost predicate Array(s: Driver)
  {
    && AllInRange(s.log)
    && s.sectors == Replay(s.initial, s.log)
    && forall i | 0 <= i < |s.finished| :: OutcomeOk(s, s.finished[i], i)
  }

  ghost predicate Valid(s: Driver)
  {
    && Locks.Valid(s.lock)
    && (forall t :: Fits(StepOf(s, t), PcOf(s.lock, t)))
    && (forall t :: Claim(s, StepOf(s, t)))
    && (Quiet(s) || exists t :: StepOf(s, t).Waiting?)
    && (|s.finished| == |s.log| || exists t :: Served(StepOf(s, t)))
    && Array(s)
  }

  lemma NewDriverIsValid(d: Image)
    ensures Valid(NewDriver(d))
  {
    NewLockIsValid();
  }

  // ----- every step keeps it -----

  lemma OnlyOneInside(s: Driver, t: Tid, u: Tid)
    requires Valid(s) && PcOf(s.lock, t) == Inside && u != t
    ensures StepOf(s, u).Idle? || StepOf(s, u).Entering?
  {
    assert Fits(StepOf(s, u), PcOf(s.lock, u));
    if PcOf(s.lock, u) == Inside {
      OneInside(s.lock, t, u);
    }
  }

  /** The disk is quiet whenever a thread inside the lock is not waiting for it. */
  lemma QuietUnlessWaiting(s: Driver, t: Tid)
    requires Valid(s) && PcOf(s.lock, t) == Inside && !StepOf(s, t).Waiting?
    ensures Quiet(s)
    ensures StepOf(s, t).Entering? ==> |s.finished| == |s.log|
  {
    forall u
      ensures !StepOf(s, u).Waiting? && (u == t || !Served(StepOf(s, u)))
    {
      if u != t {
        OnlyOneInside(s, t, u);
      }
    }
  }

  /** No assertion of the driver or of the disk ever fails. */
  lemma AssertionsHold(s: Driver, t: Tid)
    requires Valid(s) && Enabled(s, Go(t))
    ensures Asserts(s, t)
  {
    assert Fits(StepOf(s, t), PcOf(s.lock, t));
    if StepOf(s, t).Entering? {
      QuietUnlessWaiting(s, t);
    }
  }

  lemma CallKeepsValid(s: Driver, t: Tid, q: Request)
    requires Valid(s) && Enabled(s, Call(t, q))
    ensures Valid(Next(s, Call(t, q)))
  {
    AcquireKeepsValid(s.lock, t);
    var s' := Next(s, Call(t, q));
    OthersUnmoved(s, s', t);
  }

  lemma InLockKeepsValid(s: Driver, t: Tid)
    requires Valid(s) && Enabled(s, InLock(t))
    ensures Valid(Next(s, InLock(t)))
  {
    hide Array, Answered, Busy;
    MoveKeepsValid(s.lock, t);
    MoveGoesOn(s.lock, t);
    hide Move, CanMove;
    var s' := Next(s, InLock(t));
    assert Fits(StepOf(s, t), PcOf(s.lock, t));
    OthersUnmoved(s, s', t);
  }

  /** A step that leaves the disk and the semaphore alone. */
  lemma OthersUnmoved(s: Driver, s': Driver, t: Tid)
    requires Valid(s) && Locks.Valid(s'.lock)
    requires s' == s.(lock := s'.lock, at := s'.at)
    requires forall u | u != t :: PcOf(s'.lock, u) == PcOf(s.lock, u) && StepOf(s', u) == StepOf(s, u)
    requires Fits(StepOf(s', t), PcOf(s'.lock, t)) && Claim(s', StepOf(s', t))
    requires StepOf(s, t) == StepOf(s', t) || !Served(StepOf(s, t))
    ensures Valid(s')
  {
    forall u
      ensures Claim(s', StepOf(s', u))
    {
      assert Claim(s, StepOf(s, u));
    }
    forall i | 0 <= i < |s.finished|
      ensures OutcomeOk(s', s.finished[i], i)
    {
      assert OutcomeOk(s, s.finished[i], i);
    }
    if !Quiet(s) {
      var u :| StepOf(s, u).Waiting?;
      assert StepOf(s', u).Waiting?;
    }
    if |s.finished| != |s.log| {
      var u :| Served(StepOf(s, u));
      assert Served(StepOf(s', u));
    }
  }

  lemma InterruptKeepsValid(s: Driver)
    requires Valid(s) && Enabled(s, Interrupt)
    ensures Valid(Next(s, Interrupt))
  {
    var s' := Next(s, Interrupt);
    var w :| StepOf(s, w).Waiting?;
    assert Claim(s, StepOf(s, w)) && Fits(StepOf(s, w), PcOf(s.lock, w));
    forall u
      ensures Claim(s', StepOf(s', u))
    {
      assert Claim(s, StepOf(s, u));
      if u != w {
        OnlyOneInside(s, w, u);
      }
    }
    forall i | 0 <= i < |s.finished|
      ensures OutcomeOk(s', s.finished[i], i)
    {
      assert OutcomeOk(s, s.finished[i], i);
    }
    assert StepOf(s', w).Waiting? && Served(StepOf(s', w));
  }

  lemma AnsweredGrows(d: Image, log: seq<Request>, last: Request, q: Request, n: nat, got: Sector)
    requires Answered(d, log, q, n, got) && InRange(last)
    ensures Answered(d, log + [last], q, n, got)
  {
    assert (log + [last])[..n] == log[..n];
  }

  lemma IssueKeepsArray(s: Driver, t: Tid, q: Request)
    requires Array(s) && InRange(q)
    ensures Array(Issue(s, t, q))
    ensures Answered(s.initial, s.log + [q], q, |s.log|, s.sectors[q.sector])
  {
    var s' := Issue(s, t, q);
    assert s'.log[..|s.log|] == s.log;
    forall i | 0 <= i < |s.finished|
      ensures OutcomeOk(s', s.finished[i], i)
    {
      var o := s.finished[i];
      assert OutcomeOk(s, o, i);
      AnsweredGrows(s.initial, s.log, q, o.q, i, o.got);
    }
  }

  lemma IssueKeepsValid(s: Driver, t: Tid)
    requires Valid(s) && Enabled(s, Go(t)) && StepOf(s, t).Entering? && Asserts(s, t)
    ensures Valid(GoNext(s, t))
  {
    hide Array, Answered;
    var q := StepOf(s, t).q;
    var s' := GoNext(s, t);
    QuietUnlessWaiting(s, t);
    IssueKeepsArray(s, t, q);
    forall u
      ensures Claim(s', StepOf(s', u)) && Fits(StepOf(s', u), PcOf(s'.lock, u))
    {
      assert Claim(s, StepOf(s, u)) && Fits(StepOf(s, u), PcOf(s.lock, u));
      if u != t {
        OnlyOneInside(s, t, u);
      }
    }
    assert StepOf(s', t).Waiting? && Served(StepOf(s', t));
  }

  lemma PassKeepsValid(s: Driver, t: Tid)
    requires Valid(s) && Enabled(s, Go(t)) && StepOf(s, t).Waiting?
    ensures Valid(GoNext(s, t))
  {
    hide Answered;
    var s' := GoNext(s, t);
    assert Fits(StepOf(s, t), PcOf(s.lock, t)) && Claim(s, StepOf(s, t));
    forall u
      ensures Claim(s', StepOf(s', u)) && Fits(StepOf(s', u), PcOf(s'.lock, u))
    {
      assert Claim(s, StepOf(s, u)) && Fits(StepOf(s, u), PcOf(s.lock, u));
      if u != t {
        OnlyOneInside(s, t, u);
      }
    }
    forall i | 0 <= i < |s.finished|
      ensures OutcomeOk(s', s.finished[i], i)
    {
      assert OutcomeOk(s, s.finished[i], i);
    }
    assert Served(StepOf(s', t));
  }

  lemma LeaveKeepsValid(s: Driver, t: Tid)
    requires Valid(s) && Enabled(s, Go(t)) && StepOf(s, t).Leaving? && Asserts(s, t)
    ensures Valid(GoNext(s, t))
  {
    hide Answered;
    var s', a := GoNext(s, t), StepOf(s, t);
    assert Fits(a, PcOf(s.lock, t)) && Claim(s, a);
    ReleaseKeepsValid(s.lock, t);
    forall u
      ensures Claim(s', StepOf(s', u)) && Fits(StepOf(s', u), PcOf(s'.lock, u))
    {
      assert Claim(s, StepOf(s, u)) && Fits(StepOf(s, u), PcOf(s.lock, u));
      if u != t {
        OnlyOneInside(s, t, u);
      }
    }
    forall i | 0 <= i < |s'.finished|
      ensures OutcomeOk(s', s'.finished[i], i)
    {
      if i < |s.finished| {
        assert OutcomeOk(s, s.finished[i], i);
      }
    }
  }

  lemma NextKeepsValid(s: Driver, x: Action)
    requires Valid(s) && Enabled(s, x)
    ensures x.Go? ==> Asserts(s, x.t)
    ensures Valid(Next(s, x))
  {
    hide Valid;
    match x
    case Call(t, q) => CallKeepsValid(s, t, q);
    case InLock(t) => InLockKeepsValid(s, t);
    case Interrupt => InterruptKeepsValid(s);
    case Go(t) =>
      AssertionsHold(s, t);
      match StepOf(s, t)
      case Entering(_) => IssueKeepsValid(s, t);
      case Waiting(_, _, _) => PassKeepsValid(s, t);
      case Leaving(_, _, _) => LeaveKeepsValid(s, t);
  }

  // ----- what a caller relies on -----

  /** P passes only on the completion of the caller's own request, the only one outstanding. */
  lemma OwnCompletion(s: Driver, t: Tid)
    requires Valid(s) && StepOf(s, t).Waiting?
    ensures s.pending <= 1 && (s.pending == 1 <==> s.active)
    ensures StepOf(s, t).n == |s.log| - 1
    ensures Enabled(s, Go(t)) <==> s.completed == StepOf(s, t).n + 1
    ensures Enabled(s, Go(t)) || Enabled(s, Interrupt)
  {
    assert Claim(s, StepOf(s, t));
  }

  // ----- runs -----

  ghost predicate IsRun(ss: seq<Driver>, xs: seq<Action>)
  {
    && |ss| == |xs| + 1
    && ss[0] == NewDriver(ss[0].initial)
    && forall i | 0 <= i < |xs| ::
         Enabled(ss[i], xs[i]) && ((xs[i].Go? ==> Asserts(ss[i], xs[i].t)) ==> ss[i + 1] == Next(ss[i], xs[i]))
  }

  lemma {:induction false} RunKeepsValid(ss: seq<Driver>, xs: seq<Action>, i: nat)
    requires IsRun(ss, xs) && i < |ss|
    ensures Valid(ss[i]) && ss[i].initial == ss[0].initial
  {
    if i == 0 {
      NewDriverIsValid(ss[0].initial);
    } else {
      RunKeepsValid(ss, xs, i - 1);
      NextKeepsValid(ss[i - 1], xs[i - 1]);
      InitialKept(ss[i - 1], xs[i - 1]);
    }
  }

  lemma InitialKept(s: Driver, x: Action)
    requires Enabled(s, x) && (x.Go? ==> Asserts(s, x.t))
    ensures Next(s, x).initial == s.initial
  {
  }

  /** In every run of every number of threads no assertion fails and at most one request is outstanding. */
  lemma RunIsSafe(ss: seq<Driver>, xs: seq<Action>, i: nat)
    requires IsRun(ss, xs) && i < |ss|
    ensures forall t | Enabled(ss[i], Go(t)) :: Asserts(ss[i], t)
    ensures ss[i].pending <= 1
  {
    RunKeepsValid(ss, xs, i);
    forall t | Enabled(ss[i], Go(t))
      ensures Asserts(ss[i], t)
    {
      AssertionsHold(ss[i], t);
    }
    if !Quiet(ss[i]) {
      var w :| StepOf(ss[i], w).Waiting?;
      OwnCompletion(ss[i], w);
    }
  }

  // ----- the calls as one atomic array -----

  /** A call that has returned: the steps at which it was made and came back, and what it was for and found. */
  datatype Done = Done(call: nat, back: nat, q: Request, got: Sector)

  /** The step at which the thread made its last call before step i, or -1. */
  ghost function CallAt(xs: seq<Action>, i: nat, t: Tid): (c: int)
    requires i <= |xs|
    ensures -1 <= c < i && (c >= 0 ==> xs[c].Call? && xs[c].t == t)
  {
    if i == 0 then -1 else if xs[i - 1].Call? && xs[i - 1].t == t then i - 1 else CallAt(xs, i - 1, t)
  }

  /** Whoever is in the middle of a call has made it. */
  lemma {:induction false} RequestIsCall(ss: seq<Driver>, xs: seq<Action>, i: nat, t: Tid)
    requires IsRun(ss, xs) && i < |ss| && !StepOf(ss[i], t).Idle?
    ensures var c := CallAt(xs, i, t); c >= 0 && xs[c] == Call(t, StepOf(ss[i], t).q)
  {
    if i > 0 {
      RunIsSafe(ss, xs, i - 1);
      if !(xs[i - 1].Call? && xs[i - 1].t == t) {
        StillCalled(ss[i - 1], xs[i - 1], t);
        RequestIsCall(ss, xs, i - 1, t);
      }
    }
  }

  lemma StillCalled(s: Driver, x: Action, t: Tid)
    requires Enabled(s, x) && (x.Go? ==> Asserts(s, x.t)) && !(x.Call? && x.t == t)
    ensures var a := StepOf(Next(s, x), t); !a.Idle? ==> !StepOf(s, t).Idle? && a.q == StepOf(s, t).q
  {
  }

  /** The thread is at its Release, and executes it. */
  ghost predicate ComesBack(s: Driver, x: Action, s': Driver)
  {
    x.Go? && StepOf(s, x.t).Leaving? && StepOf(s', x.t).Idle?
  }

  /** The calls that have returned before step i, in the order of their returns. */
  ghost function Returned(ss: seq<Driver>, xs: seq<Action>, i: nat): (ds: seq<Done>)
    requires i <= |xs| && |ss| == |xs| + 1
    ensures forall k | 0 <= k < |ds| :: ds[k].call < ds[k].back < i
    ensures forall j, k | 0 <= j < k < |ds| :: ds[j].back < ds[k].back
  {
    if i == 0 then []
    else
      var s, x := ss[i - 1], xs[i - 1];
      Returned(ss, xs, i - 1) +
        if ComesBack(s, x, ss[i]) && CallAt(xs, i - 1, x.t) >= 0
        then [Done(CallAt(xs, i - 1, x.t), i - 1, xs[CallAt(xs, i - 1, x.t)].q, StepOf(s, x.t).got)] else []
  }

  ghost function Requests(ds: seq<Done>): (qs: seq<Request>)
    ensures |qs| == |ds|
  {
    seq(|ds|, k requires 0 <= k < |ds| => ds[k].q)
  }

  /** The log of the driver is that of these calls. */
  ghost predicate SameCalls(ds: seq<Done>, os: seq<Outcome>)
  {
    |ds| == |os| && forall k | 0 <= k < |ds| :: ds[k].q == os[k].q && ds[k].got == os[k].got
  }

  lemma FinishedStep(s: Driver, x: Action)
    requires Enabled(s, x) && (x.Go? ==> Asserts(s, x.t))
    ensures var s', a := Next(s, x), if x.Go? then StepOf(s, x.t) else Idle;
            s'.finished == s.finished + if ComesBack(s, x, s') then [Outcome(a.q, a.got)] else []
  {
  }

  lemma {:induction false} FinishedAreCalls(ss: seq<Driver>, xs: seq<Action>, i: nat)
    requires IsRun(ss, xs) && i < |ss|
    ensures SameCalls(Returned(ss, xs, i), ss[i].finished)
  {
    if i > 0 {
      FinishedAreCalls(ss, xs, i - 1);
      RunIsSafe(ss, xs, i - 1);
      var s, x := ss[i - 1], xs[i - 1];
      hide Next, Enabled, Asserts;
      FinishedStep(s, x);
      if ComesBack(s, x, ss[i]) {
        RequestIsCall(ss, xs, i - 1, x.t);
      }
    }
  }

  /** A call finds in its sector what the calls before it have left there. */
  ghost predicate FindsArray(d: Image, ds: seq<Done>, k: nat)
    requires k < |ds|
  {
    var qs := Requests(ds);
    AllInRange(qs) && InRange(qs[k]) && ds[k].got == Replay(d, qs[..k])[qs[k].sector]
  }

  /** The disk holds what the calls have left, but for at most one call that has not returned. */
  ghost predicate HoldsArray(s: Driver, ds: seq<Done>)
  {
    var qs := Requests(ds);
    && AllInRange(qs)
    && (|| s.sectors == Replay(s.initial, qs)
        || exists t :: Served(StepOf(s, t)) && InRange(StepOf(s, t).q) && s.sectors == Apply(Replay(s.initial, qs), StepOf(s, t).q))
  }

  lemma CallsOnArray(s: Driver, ds: seq<Done>)
    requires Valid(s) && SameCalls(ds, s.finished)
    ensures |ds| <= |s.log| && Requests(ds) == s.log[..|ds|]
    ensures forall k | 0 <= k < |ds| :: FindsArray(s.initial, ds, k)
  {
    forall k | 0 <= k < |ds|
      ensures k < |s.log| && s.log[k] == ds[k].q && ds[k].got == Replay(s.initial, s.log[..k])[ds[k].q.sector]
    {
      assert OutcomeOk(s, s.finished[k], k);
    }
    assert Requests(ds) == s.log[..|ds|];
    forall k | 0 <= k < |ds|
      ensures FindsArray(s.initial, ds, k)
    {
      assert Requests(ds)[..k] == s.log[..k];
    }
  }

  lemma DiskHoldsArray(s: Driver, ds: seq<Done>)
    requires Valid(s) && |ds| == |s.finished| <= |s.log| && Requests(ds) == s.log[..|ds|]
    ensures HoldsArray(s, ds)
  {
    if |ds| == |s.log| {
      assert Requests(ds) == s.log;
    } else {
      var t :| Served(StepOf(s, t));
      assert Claim(s, StepOf(s, t));
    }
  }

  /**
   * In every run the calls that have returned behave as one atomic array of sectors, in the order of their
   * returns: each finds in its sector what those before it have left there, and a call made after another has
   * returned comes after it.  The disk holds what they have left, but for at most one call that has not returned.
   */
  lemma Linearizable(ss: seq<Driver>, xs: seq<Action>, i: nat)
    requires IsRun(ss, xs) && i < |ss|
    ensures ss[i].initial == ss[0].initial && HoldsArray(ss[i], Returned(ss, xs, i))
    ensures var ds := Returned(ss, xs, i);
            && (forall k | 0 <= k < |ds| :: FindsArray(ss[0].initial, ds, k))
            && (forall j, k | 0 <= j < |ds| && 0 <= k < |ds| :: ds[j].back < ds[k].call ==> j < k)
  {
    RunKeepsValid(ss, xs, i);
    FinishedAreCalls(ss, xs, i);
    hide IsRun, Returned, Valid, FindsArray, HoldsArray;
    CallsOnArray(ss[i], Returned(ss, xs, i));
    DiskHoldsArray(ss[i], Returned(ss, xs, i));
  }
}
