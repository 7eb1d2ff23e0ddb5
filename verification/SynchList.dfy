/**
 * threads/synchlist.h: a list shared by any number of threads that append to it and
 * remove from it, in every interleaving.
 */
module SynchLists {
  import opened Kernels
  import opened Locks
  import opened Conditions

  type Item = nat

  datatype Role = Appender(item: Item) | Remover

  datatype Step =
    | Idle
    | Entering(r: Role)        // lock->Acquire(), then the list operation or the loop test
    | WaitNew                  // in Wait: make a semaphore and append it
    | WaitRelease(s: nat)      // in Wait: lock->Release()
    | WaitP(s: nat)            // in Wait: sem->P()
    | WaitAcquire              // in Wait: lock->Acquire()
    | Taking                   // list->Remove()
    | Signal                   // listEmpty->Signal()
    | Exit(got: Option<Item>)  // lock->Release()

  datatype Shared = Shared(
    lock: Lock,
    list: seq<Item>,
    sems: seq<nat>,            // the values of the semaphores made by Wait
    waiting: seq<nat>,         // semList of listEmpty
    at: map<Tid, Step>,
    appended: seq<Item>,       // in the order of the calls of list->Append
    returned: seq<Item>)       // in the order in which Remove gave them out

  /** SynchList::SynchList */
  function NewList(): (l: Shared)
  {
    Shared(NewLock(), [], [], [], map[], [], [])
  }

  function StepOf(l: Shared, t: Tid): (a: Step)
  {
    if t in l.at then l.at[t] else Idle
  }

  function Put(l: Shared, t: Tid, a: Step): (l': Shared)
    ensures forall u :: StepOf(l', u) == if u == t then a else StepOf(l, u)
  {
    l.(at := l.at[t := a])
  }

  // ----- the steps -----

  datatype Action =
    | Call(r: Role)
    | InLock            // a thread moves on inside Acquire or Release
    | Go                // a thread executes its next statement

  ghost predicate Enabled(l: Shared, t: Tid, x: Action)
  {
    match x
    case Call(r) => StepOf(l, t) == Idle && PcOf(l.lock, t) == Outside
    case InLock => CanMove(l.lock, t)
    case Go =>
      match StepOf(l, t)
      case Idle => false
      case Entering(r) => PcOf(l.lock, t) == Inside
      case WaitP(s) => PcOf(l.lock, t) == Outside && (s < |l.sems| ==> l.sems[s] > 0)
      case WaitAcquire => PcOf(l.lock, t) == Outside
      case _ => true
  }

  /** The assertions that the next statement executes: Wait's and Signal's, and Release's; and a P is on a semaphore. */
  predicate Asserts(l: Shared, t: Tid)
  {
    match StepOf(l, t)
    case WaitNew => l.lock.thname == Some(t)
    case WaitRelease(_) => l.lock.thname == Some(t)
    case WaitP(s) => s < |l.sems|
    case Signal => l.lock.thname == Some(t)
    case Exit(_) => l.lock.thname == Some(t)
    case _ => true
  }

  function GoNext(l: Shared, t: Tid): (l': Shared)
    requires Asserts(l, t)
    requires StepOf(l, t).WaitAcquire? ==> PcOf(l.lock, t) == Outside
    requires StepOf(l, t).WaitP? ==> l.sems[StepOf(l, t).s] > 0
  {
    match StepOf(l, t)
    case Idle => l
    case Entering(r) =>
      if r.Appender? then Put(l.(list := l.list + [r.item], appended := l.appended + [r.item]), t, Signal)
      else Put(l, t, if l.list == [] then WaitNew else Taking)
    case WaitNew => Put(l.(sems := l.sems + [1], waiting := l.waiting + [|l.sems|]), t, WaitRelease(|l.sems|))
    case WaitRelease(s) => Put(l.(lock := Release(l.lock, t)), t, WaitP(s))
    case WaitP(s) => Put(l.(sems := l.sems[s := l.sems[s] - 1]), t, WaitAcquire)
    case WaitAcquire => Put(l.(lock := Acquire(l.lock, t)), t, Entering(Remover))
    case Taking =>
      if l.list == [] then Put(l, t, Exit(None)) else Put(l.(list := l.list[1..]), t, Exit(Some(l.list[0])))
    case Signal => Put(l.(sems := Wake(l.sems, l.waiting), waiting := Rest(l.waiting)), t, Exit(None))
    case Exit(got) =>
      Put(l.(lock := Release(l.lock, t), returned := l.returned + if got.Some? then [got.value] else []), t, Idle)
  }

  ghost function Next(l: Shared, t: Tid, x: Action): (l': Shared)
    requires Enabled(l, t, x) && (x.Go? ==> Asserts(l, t))
  {
    match x
    case Call(r) => Put(l.(lock := Acquire(l.lock, t)), t, Entering(r))
    case InLock => l.(lock := Move(l.lock, t))
    case Go => GoNext(l, t)
  }

  // ----- the invariant -----

  ghost predicate Fits(a: Step, pc: Pc)
  {
    match a
    case Idle => pc == Outside || pc == AtSemV
    case Entering(r) => pc != Outside && pc != AtSemV
    case WaitP(s) => pc == Outside || pc == AtSemV
    case WaitAcquire => pc == Outside
    case _ => pc == Inside
  }

  predicate Holding(a: Step)
  {
    a.Exit? && a.got.Some?
  }

  ghost predicate Claim(l: Shared, a: Step)
  {
    match a
    case Taking => l.list != []
    case Exit(Some(x)) => l.appended == l.returned + [x] + l.list
    case WaitRelease(s) => s < |l.sems| && l.sems[s] > 0
    case WaitP(s) => s < |l.sems| && l.sems[s] > 0
    case _ => true
  }

  /** The semaphore that a thread in Wait made for itself. */
  ghost function Own(a: Step): (o: Option<nat>)
  {
    match a
    case WaitRelease(s) => Some(s)
    case WaitP(s) => Some(s)
    case _ => None
  }

  ghost predicate Settled(l: Shared)
  {
    l.appended == l.returned + l.list
  }

  ghost predicate Valid(l: Shared)
  {
    && Locks.Valid(l.lock)
    && (forall t :: Fits(StepOf(l, t), PcOf(l.lock, t)))
    && (forall t :: Claim(l, StepOf(l, t)))
    && (forall t, u :: Own(StepOf(l, t)).Some? && Own(StepOf(l, t)) == Own(StepOf(l, u)) ==> t == u)
    && (Settled(l) || exists t :: Holding(StepOf(l, t)))
  }

  lemma NewListIsValid()
    ensures Valid(NewList())
  {
    NewLockIsValid();
  }

  // ----- every step keeps it -----

  /** What has to be shown of a step of thread t. */
  lemma StepKeepsValid(l: Shared, l': Shared, t: Tid)
    requires Valid(l) && Locks.Valid(l'.lock)
    requires forall u | u != t :: PcOf(l'.lock, u) == PcOf(l.lock, u) && StepOf(l', u) == StepOf(l, u)
    requires Fits(StepOf(l', t), PcOf(l'.lock, t)) && Claim(l', StepOf(l', t))
    requires forall u | u != t :: Claim(l', StepOf(l, u))
    requires Own(StepOf(l', t)).Some? ==> forall u | u != t :: Own(StepOf(l, u)) != Own(StepOf(l', t))
    requires Settled(l') || exists u :: Holding(StepOf(l', u))
    ensures Valid(l')
  {
  }

  /** A step that leaves the list alone, taken by a thread that holds no item. */
  lemma SameHolder(l: Shared, l': Shared, t: Tid)
    requires Valid(l) && l'.list == l.list && l'.appended == l.appended && l'.returned == l.returned
    requires forall u | u != t :: StepOf(l', u) == StepOf(l, u)
    requires !Holding(StepOf(l, t)) || StepOf(l', t) == StepOf(l, t)
    ensures Settled(l') || exists u :: Holding(StepOf(l', u))
  {
    if !Settled(l) {
      var u :| Holding(StepOf(l, u));
      assert Holding(StepOf(l', u));
    }
  }

  /** The others are outside the lock, where a claim is only about their own semaphore. */
  lemma OthersKeepClaims(l: Shared, l': Shared, t: Tid)
    requires Valid(l) && PcOf(l.lock, t) == Inside
    requires |l.sems| <= |l'.sems|
    requires forall s | 0 <= s < |l.sems| && l.sems[s] > 0 :: l'.sems[s] > 0
    ensures forall u | u != t :: Claim(l', StepOf(l, u)) && !Holding(StepOf(l, u))
  {
    forall u | u != t
      ensures Claim(l', StepOf(l, u)) && !Holding(StepOf(l, u))
    {
      assert Claim(l, StepOf(l, u)) && Fits(StepOf(l, u), PcOf(l.lock, u));
      if PcOf(l.lock, u) == Inside {
        OneInside(l.lock, t, u);
      }
    }
  }

  /** Claims are not about the lock or about the places of the threads. */
  lemma ClaimsKept(l: Shared, l': Shared)
    requires Valid(l) && l' == l.(lock := l'.lock, at := l'.at)
    ensures forall u :: Claim(l', StepOf(l, u))
  {
    forall u
      ensures Claim(l', StepOf(l, u))
    {
      assert Claim(l, StepOf(l, u));
    }
  }

  lemma CallKeepsValid(l: Shared, t: Tid, r: Role)
    requires Valid(l) && Enabled(l, t, Call(r))
    ensures Valid(Next(l, t, Call(r)))
  {
    var l' := Next(l, t, Call(r));
    AcquireKeepsValid(l.lock, t);
    ClaimsKept(l, l');
    SameHolder(l, l', t);
    StepKeepsValid(l, l', t);
  }

  lemma InLockKeepsValid(l: Shared, t: Tid)
    requires Valid(l) && Enabled(l, t, InLock)
    ensures Valid(Next(l, t, InLock))
  {
    var l' := Next(l, t, InLock);
    MoveKeepsValid(l.lock, t);
    MoveGoesOn(l.lock, t);
    hide Move, CanMove;
    assert Fits(StepOf(l, t), PcOf(l.lock, t));
    ClaimsKept(l, l');
    SameHolder(l, l', t);
    StepKeepsValid(l, l', t);
  }

  lemma EnteringKeepsValid(l: Shared, t: Tid)
    requires Valid(l) && Enabled(l, t, Go) && Asserts(l, t) && StepOf(l, t).Entering?
    ensures Valid(GoNext(l, t))
  {
    var l' := GoNext(l, t);
    OthersKeepClaims(l, l', t);
    assert Settled(l);
    assert l.returned + (l.list + l'.list[|l.list|..]) == (l.returned + l.list) + l'.list[|l.list|..];
    StepKeepsValid(l, l', t);
  }

  lemma WaitNewKeepsValid(l: Shared, t: Tid)
    requires Valid(l) && Enabled(l, t, Go) && Asserts(l, t) && StepOf(l, t).WaitNew?
    ensures Valid(GoNext(l, t))
  {
    var l' := GoNext(l, t);
    assert Fits(StepOf(l, t), PcOf(l.lock, t));
    OthersKeepClaims(l, l', t);
    forall u | u != t
      ensures Own(StepOf(l, u)) != Some(|l.sems|)
    {
      assert Claim(l, StepOf(l, u));
    }
    SameHolder(l, l', t);
    StepKeepsValid(l, l', t);
  }

  lemma TakingKeepsValid(l: Shared, t: Tid)
    requires Valid(l) && Enabled(l, t, Go) && Asserts(l, t) && (StepOf(l, t).Taking? || StepOf(l, t).Signal?)
    ensures Valid(GoNext(l, t))
  {
    var l' := GoNext(l, t);
    assert Fits(StepOf(l, t), PcOf(l.lock, t)) && Claim(l, StepOf(l, t));
    OthersKeepClaims(l, l', t);
    assert Settled(l);
    if StepOf(l, t).Taking? {
      assert l.list == [l.list[0]] + l'.list;
      assert Holding(StepOf(l', t));
    }
    StepKeepsValid(l, l', t);
  }

  lemma ReleasingKeepsValid(l: Shared, t: Tid)
    requires Valid(l) && Enabled(l, t, Go) && Asserts(l, t) && (StepOf(l, t).WaitRelease? || StepOf(l, t).Exit?)
    ensures Valid(GoNext(l, t))
  {
    var l' := GoNext(l, t);
    assert Fits(StepOf(l, t), PcOf(l.lock, t)) && Claim(l, StepOf(l, t));
    ReleaseKeepsValid(l.lock, t);
    OthersKeepClaims(l, l', t);
    assert Settled(l) || Holding(StepOf(l, t));
    StepKeepsValid(l, l', t);
  }

  lemma WaitPKeepsValid(l: Shared, t: Tid)
    requires Valid(l) && Enabled(l, t, Go) && Asserts(l, t) && StepOf(l, t).WaitP?
    ensures Valid(GoNext(l, t))
  {
    var l', s := GoNext(l, t), StepOf(l, t).s;
    forall u | u != t
      ensures Claim(l', StepOf(l, u))
    {
      assert Claim(l, StepOf(l, u));
      assert Own(StepOf(l, t)) == Some(s) && Own(StepOf(l, u)) != Some(s);
    }
    SameHolder(l, l', t);
    StepKeepsValid(l, l', t);
  }

  lemma WaitAcquireKeepsValid(l: Shared, t: Tid)
    requires Valid(l) && Enabled(l, t, Go) && Asserts(l, t) && StepOf(l, t).WaitAcquire?
    ensures Valid(GoNext(l, t))
  {
    var l' := GoNext(l, t);
    AcquireKeepsValid(l.lock, t);
    ClaimsKept(l, l');
    SameHolder(l, l', t);
    StepKeepsValid(l, l', t);
  }

  /** Whoever executes Wait, Signal or Release in the list holds the lock, and every P is on a semaphore. */
  lemma AssertionsHold(l: Shared, t: Tid)
    requires Valid(l)
    ensures Asserts(l, t)
  {
    assert Fits(StepOf(l, t), PcOf(l.lock, t)) && Claim(l, StepOf(l, t));
  }

  lemma NextKeepsValid(l: Shared, t: Tid, x: Action)
    requires Valid(l) && Enabled(l, t, x)
    ensures x.Go? ==> Asserts(l, t)
    ensures Valid(Next(l, t, x))
  {
    AssertionsHold(l, t);
    hide Valid;
    match x
    case Call(r) => CallKeepsValid(l, t, r);
    case InLock => InLockKeepsValid(l, t);
    case Go =>
      match StepOf(l, t)
      case Entering(_) => EnteringKeepsValid(l, t);
      case WaitNew => WaitNewKeepsValid(l, t);
      case WaitP(_) => WaitPKeepsValid(l, t);
      case WaitAcquire => WaitAcquireKeepsValid(l, t);
      case WaitRelease(_) => ReleasingKeepsValid(l, t);
      case Exit(_) => ReleasingKeepsValid(l, t);
      case _ => TakingKeepsValid(l, t);
  }

  // ----- runs -----

  datatype Event = Event(t: Tid, x: Action)

  ghost predicate IsRun(ls: seq<Shared>, es: seq<Event>)
  {
    && |ls| == |es| + 1
    && ls[0] == NewList()
    && forall i | 0 <= i < |es| ::
         && Enabled(ls[i], es[i].t, es[i].x)
         && ((es[i].x.Go? ==> Asserts(ls[i], es[i].t)) ==> ls[i + 1] == Next(ls[i], es[i].t, es[i].x))
  }

  lemma {:induction false} RunKeepsValid(ls: seq<Shared>, es: seq<Event>, i: nat)
    requires IsRun(ls, es) && i < |ls|
    ensures Valid(ls[i])
  {
    if i == 0 {
      NewListIsValid();
    } else {
      RunKeepsValid(ls, es, i - 1);
      NextKeepsValid(ls[i - 1], es[i - 1].t, es[i - 1].x);
    }
  }

  /** In every run no assertion fails, and Remove takes only from a list that is not empty, with the lock held. */
  lemma RunIsSafe(ls: seq<Shared>, es: seq<Event>, i: nat, t: Tid)
    requires IsRun(ls, es) && i < |ls|
    ensures Asserts(ls[i], t)
    ensures StepOf(ls[i], t).Taking? ==> ls[i].list != [] && ls[i].lock.thname == Some(t)
  {
    RunKeepsValid(ls, es, i);
    AssertionsHold(ls[i], t);
    assert Fits(StepOf(ls[i], t), PcOf(ls[i].lock, t)) && Claim(ls[i], StepOf(ls[i], t));
  }

  // ----- what goes in and what comes out -----

  /** What the thread called last, before step i. */
  ghost function CallOf(es: seq<Event>, i: nat, t: Tid): (r: Option<Role>)
    requires i <= |es|
  {
    if i == 0 then None
    else if es[i - 1].t == t && es[i - 1].x.Call? then Some(es[i - 1].x.r)
    else CallOf(es, i - 1, t)
  }

  /** Whoever is about to append was called for this item. */
  lemma {:induction false} ItemIsCall(ls: seq<Shared>, es: seq<Event>, i: nat, t: Tid)
    requires IsRun(ls, es) && i < |ls| && StepOf(ls[i], t).Entering? && StepOf(ls[i], t).r.Appender?
    ensures CallOf(es, i, t) == Some(StepOf(ls[i], t).r)
  {
    if i > 0 {
      RunIsSafe(ls, es, i - 1, es[i - 1].t);
      if es[i - 1].t != t || !es[i - 1].x.Call? {
        ItemIsCall(ls, es, i - 1, t);
      }
    }
  }

  /** The items with which Append was called by those who have put one on the list, in this order. */
  ghost function AppendedBy(ls: seq<Shared>, es: seq<Event>, i: nat): (xs: seq<Item>)
    requires i <= |es| && |ls| == |es| + 1
  {
    if i == 0 then []
    else
      var r := CallOf(es, i - 1, es[i - 1].t);
      AppendedBy(ls, es, i - 1) + if |ls[i].list| > |ls[i - 1].list| && r.Some? && r.value.Appender? then [r.value.item] else []
  }

  /** What those have in their variable who have returned from Remove, in this order. */
  ghost function ReturnedBy(ls: seq<Shared>, es: seq<Event>, i: nat): (xs: seq<Item>)
    requires i <= |es| && |ls| == |es| + 1
  {
    if i == 0 then []
    else
      var a, b := StepOf(ls[i - 1], es[i - 1].t), StepOf(ls[i], es[i - 1].t);
      ReturnedBy(ls, es, i - 1) + if a.Exit? && b.Idle? && a.got.Some? then [a.got.value] else []
  }

  lemma LogStep(l: Shared, t: Tid, x: Action)
    requires Valid(l) && Enabled(l, t, x) && (x.Go? ==> Asserts(l, t))
    ensures var l', a := Next(l, t, x), StepOf(l, t);
            && l'.appended == l.appended + (if |l'.list| > |l.list| && a.Entering? && a.r.Appender? then [a.r.item] else [])
            && l'.returned == l.returned + (if a.Exit? && StepOf(l', t).Idle? && a.got.Some? then [a.got.value] else [])
            && (|l'.list| > |l.list| ==> a.Entering? && a.r.Appender?)
  {
    hide Valid;
  }

  lemma {:induction false} LogsAreCalls(ls: seq<Shared>, es: seq<Event>, i: nat)
    requires IsRun(ls, es) && i < |ls|
    ensures ls[i].appended == AppendedBy(ls, es, i) && ls[i].returned == ReturnedBy(ls, es, i)
  {
    if i > 0 {
      LogsAreCalls(ls, es, i - 1);
      RunKeepsValid(ls, es, i - 1);
      var l, t := ls[i - 1], es[i - 1].t;
      RunIsSafe(ls, es, i - 1, t);
      hide Next, Enabled, Asserts, Valid;
      LogStep(l, t, es[i - 1].x);
      if StepOf(l, t).Entering? && StepOf(l, t).r.Appender? {
        ItemIsCall(ls, es, i - 1, t);
      }
    }
  }

  /**
   * In every run the items that Remove gave out are those that Append was called with, in the order of the
   * appending; between them and the items still on the list stands at most the one that a thread is about to return.
   */
  lemma FirstInFirstOut(ls: seq<Shared>, es: seq<Event>, i: nat)
    requires IsRun(ls, es) && i < |ls|
    ensures ReturnedBy(ls, es, i) <= AppendedBy(ls, es, i)
    ensures || AppendedBy(ls, es, i) == ReturnedBy(ls, es, i) + ls[i].list
            || exists t :: Holding(StepOf(ls[i], t))
                 && AppendedBy(ls, es, i) == ReturnedBy(ls, es, i) + [StepOf(ls[i], t).got.value] + ls[i].list
  {
    RunKeepsValid(ls, es, i);
    LogsAreCalls(ls, es, i);
    hide IsRun;
    if !Settled(ls[i]) {
      var t :| Holding(StepOf(ls[i], t));
      assert Claim(ls[i], StepOf(ls[i], t));
    }
  }
}
