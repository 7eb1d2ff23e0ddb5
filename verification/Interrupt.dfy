/**
 * machine/interrupt.cc: the simulated clock and the queue of device interrupts.
 * A handler is seen through what it does to this state: it schedules further
 * interrupts and it may ask for a yield.  What the n-th handler to run does is
 * given by a function from nat, so that every behaviour is covered.
 */
module Clocks {
  import opened Lists

  const USER_TICK := 1
  const SYSTEM_TICK := 10

  datatype IntType = TimerInt | DiskInt | ConsoleWriteInt | ConsoleReadInt | NetworkSendInt | NetworkRecvInt

  datatype MachineStatus = IdleMode | SystemMode | UserMode

  datatype Pending = Pending(handler: nat, when: int, kind: IntType)

  /** `ASSERT(fromNow > 0)` of Interrupt::Schedule. */
  type Delay = n: int | n > 0 witness 1

  datatype Request = Request(handler: nat, fromNow: Delay, kind: IntType)

  datatype Effect = Effect(requests: seq<Request>, wantsYield: bool)

  /** One handler call: the interrupt, whose key is the time it was due, and the time of the call. */
  datatype Firing = Firing(what: Elem<Pending>, at: int)

  datatype Clock = Clock(
    intOn: bool,
    inHandler: bool,
    yieldOnReturn: bool,
    status: MachineStatus,
    pending: seq<Elem<Pending>>,
    totalTicks: int,
    idleTicks: int,
    systemTicks: int,
    userTicks: int,
    fired: seq<Firing>)

  const START := Clock(false, false, false, SystemMode, [], 0, 0, 0, 0, [])

  // ----- the operations -----

  function Schedule(c: Clock, r: Request): (c': Clock)
  {
    var when := c.totalTicks + r.fromNow;
    var x := Elem(when, Pending(r.handler, when, r.kind));
    c.(pending := InsertByKey(c.pending, x))
  }

  function ScheduleAll(c: Clock, rs: seq<Request>): (c': Clock)
    decreases |rs|
  {
    if rs == [] then c else ScheduleAll(Schedule(c, rs[0]), rs[1..])
  }

  /** The body of a handler, between `inHandler = true` and `inHandler = false`. */
  function CallHandler(c: Clock, e: Effect): (c': Clock)
  {
    var running := c.(inHandler := true, status := SystemMode);
    var after := ScheduleAll(running, e.requests);
    after.(yieldOnReturn := after.yieldOnReturn || e.wantsYield, status := c.status, inHandler := false)
  }

  /** Idle time passes until `when`, if that is in the future. */
  function Advanced(c: Clock, when: int): (c': Clock)
  {
    if when > c.totalTicks then
      c.(idleTicks := c.idleTicks + (when - c.totalTicks), totalTicks := when)
    else c
  }

  /** The first interrupt is taken off the queue and inserted again, behind those with its key. */
  function PutBack(c: Clock): (c': Clock)
    requires c.pending != []
  {
    c.(pending := InsertByKey(c.pending[1..], c.pending[0]))
  }

  /** The clock when the handler of the first pending interrupt is called. */
  function BeforeCall(c: Clock): (c': Clock)
    requires c.pending != []
  {
    var now := Advanced(c, c.pending[0].key);
    now.(pending := c.pending[1..], fired := c.fired + [Firing(c.pending[0], now.totalTicks)])
  }

  function Fire(c: Clock, e: Effect): (c': Clock)
    requires c.pending != []
  {
    CallHandler(BeforeCall(c), e)
  }

  /** An idle machine does not run for the time-slice daemon alone. */
  predicate NothingToDo(c: Clock)
    requires c.pending != []
  {
    c.status == IdleMode && c.pending[0].item.kind == TimerInt && |c.pending| == 1
  }

  datatype Checked = Checked(clock: Clock, fired: bool)

  /** Interrupt::CheckIfDue; e is what the handler does, should one be called. */
  function CheckIfDue(c: Clock, advanceClock: bool, e: Effect): (r: Checked)
  {
    if c.pending == [] then Checked(c, false)
    else if !advanceClock && c.pending[0].key > c.totalTicks then Checked(PutBack(c), false)
    else if NothingToDo(c) then Checked(PutBack(Advanced(c, c.pending[0].key)), false)
    else Checked(Fire(c, e), true)
  }

  // ----- the invariant -----

  ghost predicate WellQueued(c: Clock)
  {
    Sorted(c.pending) && forall x | x in c.pending :: x.key == x.item.when
  }

  /** No handler ran before its time or in the future, and both times never decrease. */
  ghost predicate FairLog(c: Clock)
  {
    && (forall i | 0 <= i < |c.fired| :: c.fired[i].what.key <= c.fired[i].at <= c.totalTicks)
    && (forall i, j | 0 <= i < j < |c.fired| :: c.fired[i].what.key <= c.fired[j].what.key && c.fired[i].at <= c.fired[j].at)
  }

  /** What has fired was due no later than anything still pending. */
  ghost predicate LogBeforeQueue(c: Clock)
  {
    forall i, x | 0 <= i < |c.fired| && x in c.pending :: c.fired[i].what.key <= x.key
  }

  ghost predicate TicksAddUp(c: Clock)
  {
    c.totalTicks == c.idleTicks + c.systemTicks + c.userTicks
  }

  ghost predicate Valid(c: Clock)
  {
    WellQueued(c) && FairLog(c) && LogBeforeQueue(c) && TicksAddUp(c) && !c.inHandler
  }

  // ----- scheduling -----

  /** The queue after requests: sorted, the old entries, and new ones in the future. */
  ghost predicate Enqueued(c: Clock, c': Clock)
  {
    && c' == c.(pending := c'.pending)
    && (WellQueued(c) ==> WellQueued(c'))
    && (forall x | x in c.pending :: x in c'.pending)
    && (forall x | x in c'.pending :: x in c.pending || x.key > c.totalTicks)
  }

  lemma ScheduleEnqueues(c: Clock, r: Request)
    ensures Enqueued(c, Schedule(c, r))
  {
    var when := c.totalTicks + r.fromNow;
    var x := Elem(when, Pending(r.handler, when, r.kind));
    forall y: Elem<Pending>
      ensures y in InsertByKey(c.pending, x) <==> y == x || y in c.pending
    {
      InsertMembers(c.pending, x, y);
    }
    hide InsertByKey;
    if WellQueued(c) {
      InsertKeepsSorted(c.pending, x);
    }
  }

  lemma {:induction false} ScheduleAllEnqueues(c: Clock, rs: seq<Request>)
    ensures Enqueued(c, ScheduleAll(c, rs))
    decreases |rs|
  {
    if rs != [] {
      ScheduleEnqueues(c, rs[0]);
      ScheduleAllEnqueues(Schedule(c, rs[0]), rs[1..]);
    }
  }

  lemma ScheduleKeepsValid(c: Clock, r: Request)
    requires Valid(c)
    ensures Valid(Schedule(c, r))
  {
    ScheduleEnqueues(c, r);
  }

  /** A handler changes the queue and the yield flag, nothing else. */
  lemma CallHandlerEnqueues(c: Clock, e: Effect)
    requires !c.inHandler
    ensures var c' := CallHandler(c, e); Enqueued(c.(yieldOnReturn := c'.yieldOnReturn), c')
  {
    ScheduleAllEnqueues(c.(inHandler := true, status := SystemMode), e.requests);
  }

  // ----- one check -----

  lemma PutBackKeepsValid(c: Clock)
    requires Valid(c) && c.pending != []
    ensures Valid(PutBack(c))
    ensures forall y: Elem<Pending> :: y in PutBack(c).pending <==> y in c.pending
  {
    var s := c.pending;
    InsertKeepsSorted(s[1..], s[0]);
    forall y: Elem<Pending>
      ensures y in InsertByKey(s[1..], s[0]) <==> y in s
    {
      InsertMembers(s[1..], s[0], y);
      assert s == [s[0]] + s[1..];
    }
  }

  lemma AdvancedKeepsValid(c: Clock, when: int)
    requires Valid(c)
    ensures Valid(Advanced(c, when)) && Advanced(c, when).totalTicks >= c.totalTicks
  {
  }

  lemma BeforeCallKeepsValid(c: Clock)
    requires Valid(c) && c.pending != [] && c.pending[0].key <= c.totalTicks
    ensures Valid(BeforeCall(c))
  {
    var c', x := BeforeCall(c), c.pending[0];
    assert x in c.pending;
    FirstIsLeast(c.pending);
    assert WellQueued(c');
    assert LogBeforeQueue(c');
    assert FairLog(c');
  }

  lemma FirstIsLeast(s: seq<Elem<Pending>>)
    requires Sorted(s) && s != []
    ensures Sorted(s[1..]) && forall y | y in s[1..] :: y in s && s[0].key <= y.key
  {
  }

  lemma EnqueuedKeepsValid(c: Clock, c': Clock)
    requires Valid(c) && Enqueued(c, c')
    ensures Valid(c')
  {
  }

  /** Firing the first pending interrupt, at its time or later. */
  lemma FireKeepsValid(c: Clock, e: Effect)
    requires Valid(c) && c.pending != []
    ensures var c', f := Fire(c, e), BeforeCall(c);
      && Valid(c') && Enqueued(f.(yieldOnReturn := c'.yieldOnReturn), c')
      && c'.totalTicks >= c.totalTicks
  {
    hide Valid, Enqueued, CallHandler;
    var now := Advanced(c, c.pending[0].key);
    AdvancedKeepsValid(c, c.pending[0].key);
    BeforeCallKeepsValid(now);
    var f := BeforeCall(c);
    assert f == BeforeCall(now);
    var c' := CallHandler(f, e);
    FromHandler(f, e);
  }

  lemma FromHandler(f: Clock, e: Effect)
    requires Valid(f)
    ensures var c' := CallHandler(f, e);
      && Valid(c') && Enqueued(f.(yieldOnReturn := c'.yieldOnReturn), c')
      && c'.totalTicks == f.totalTicks
  {
    CallHandlerEnqueues(f, e);
    var c' := CallHandler(f, e);
    EnqueuedKeepsValid(f.(yieldOnReturn := c'.yieldOnReturn), c');
  }

  /** CheckIfDue keeps the invariant, never turns the clock back and only adds to the log. */
  lemma CheckKeepsValid(c: Clock, advanceClock: bool, e: Effect)
    requires Valid(c)
    ensures var r := CheckIfDue(c, advanceClock, e);
      Valid(r.clock) && r.clock.totalTicks >= c.totalTicks && c.fired <= r.clock.fired
  {
    hide Valid, CallHandler, InsertByKey;
    if c.pending != [] {
      PutBackKeepsValid(c);
      AdvancedKeepsValid(c, c.pending[0].key);
      PutBackKeepsValid(Advanced(c, c.pending[0].key));
      FireKeepsValid(c, e);
    }
  }

  // ----- draining the interrupts that are due -----

  /** How many entries are due at time t. */
  function DueCount(s: seq<Elem<Pending>>, t: int): (n: nat)
  {
    if s == [] then 0 else (if s[0].key <= t then 1 else 0) + DueCount(s[1..], t)
  }

  lemma {:induction false} InsertDueCount(s: seq<Elem<Pending>>, x: Elem<Pending>, t: int)
    ensures DueCount(InsertByKey(s, x), t) == DueCount(s, t) + (if x.key <= t then 1 else 0)
  {
    if |s| > 0 && s[0].key <= x.key {
      InsertDueCount(s[1..], x, t);
      assert InsertByKey(s, x)[1..] == InsertByKey(s[1..], x);
    } else {
      assert InsertByKey(s, x)[1..] == s;
    }
  }

  /** Requests are for the future, so they never add to what is due now. */
  lemma {:induction false} ScheduleAllDueCount(c: Clock, rs: seq<Request>)
    ensures DueCount(ScheduleAll(c, rs).pending, c.totalTicks) == DueCount(c.pending, c.totalTicks)
    ensures ScheduleAll(c, rs).totalTicks == c.totalTicks
    decreases |rs|
  {
    if rs != [] {
      var r := rs[0];
      var when := c.totalTicks + r.fromNow;
      InsertDueCount(c.pending, Elem(when, Pending(r.handler, when, r.kind)), c.totalTicks);
      ScheduleAllDueCount(Schedule(c, r), rs[1..]);
    }
  }

  /** A handler call takes one from what is due: this is why the loop over CheckIfDue ends. */
  lemma FiredOneLess(c: Clock, e: Effect)
    requires CheckIfDue(c, false, e).fired
    ensures var c' := CheckIfDue(c, false, e).clock;
      c'.totalTicks == c.totalTicks && DueCount(c'.pending, c'.totalTicks) == DueCount(c.pending, c.totalTicks) - 1
  {
    ScheduleAllDueCount(BeforeCall(c).(inHandler := true, status := SystemMode), e.requests);
  }

  datatype Drained = Drained(clock: Clock, calls: nat)

  /** `while (CheckIfDue(false)) ;` -- the handlers called are the ones numbered from n on. */
  function Drain(c: Clock, effects: nat -> Effect, n: nat): (r: Drained)
    decreases DueCount(c.pending, c.totalTicks)
  {
    var k := CheckIfDue(c, false, effects(n));
    if k.fired then
      FiredOneLess(c, effects(n));
      Drain(k.clock, effects, n + 1)
    else Drained(k.clock, n)
  }

  ghost predicate AllFuture(c: Clock)
  {
    forall x | x in c.pending :: x.key > c.totalTicks
  }

  /** After the loop nothing is due, except that an idle machine leaves a lone time-slice interrupt. */
  lemma {:induction false} DrainEnds(c: Clock, effects: nat -> Effect, n: nat)
    requires Valid(c)
    ensures var c' := Drain(c, effects, n).clock;
      && Valid(c') && c'.totalTicks == c.totalTicks && c.fired <= c'.fired
      && c'.status == c.status && c'.intOn == c.intOn
      && (AllFuture(c') || (c'.pending != [] && NothingToDo(c')))
    decreases DueCount(c.pending, c.totalTicks)
  {
    var e := effects(n);
    var k := CheckIfDue(c, false, e);
    CheckKeepsValid(c, false, e);
    if k.fired {
      FiredOneLess(c, e);
      FireFrame(c, e);
      DrainEnds(k.clock, effects, n + 1);
    } else {
      NotFiredEnds(c, e);
    }
  }

  lemma FireFrame(c: Clock, e: Effect)
    requires Valid(c) && c.pending != []
    ensures Fire(c, e).status == c.status && Fire(c, e).intOn == c.intOn
  {
    hide Valid, InsertByKey;
    FireKeepsValid(c, e);
  }

  lemma NotFiredEnds(c: Clock, e: Effect)
    requires Valid(c) && !CheckIfDue(c, false, e).fired
    ensures var c' := CheckIfDue(c, false, e).clock;
      && c'.totalTicks == c.totalTicks && c'.status == c.status && c'.intOn == c.intOn && c'.fired == c.fired
      && (AllFuture(c') || (c'.pending != [] && NothingToDo(c')))
  {
    if c.pending != [] {
      PutBackKeepsValid(c);
      if c.pending[0].key > c.totalTicks {
        assert forall i | 0 <= i < |c.pending| :: c.pending[0].key <= c.pending[i].key;
      } else {
        assert c.pending[1..] == [] && PutBack(c).pending == c.pending;
      }
    }
  }

  // ----- ticks, idling and runs -----

  datatype Ticked = Ticked(clock: Clock, calls: nat, wantsYield: bool)

  /** Simulated time for one instruction or one return from the kernel. */
  function Elapsed(c: Clock): (c': Clock)
  {
    if c.status == SystemMode then
      c.(totalTicks := c.totalTicks + SYSTEM_TICK, systemTicks := c.systemTicks + SYSTEM_TICK)
    else
      c.(totalTicks := c.totalTicks + USER_TICK, userTicks := c.userTicks + USER_TICK)
  }

  /** Interrupt::OneTick up to the point where it calls Thread::Yield. */
  function OneTick(c: Clock, effects: nat -> Effect, n: nat): (r: Ticked)
  {
    var d := Drain(Elapsed(c).(intOn := false), effects, n);
    Ticked(d.clock.(intOn := true, yieldOnReturn := false), d.calls, d.clock.yieldOnReturn)
  }

  lemma FlagsKeepValid(c: Clock, on: bool, yield1: bool, s: MachineStatus)
    requires Valid(c)
    ensures Valid(c.(intOn := on, yieldOnReturn := yield1, status := s)) && Valid(Elapsed(c))
    ensures AllFuture(c) ==> AllFuture(c.(intOn := on, yieldOnReturn := yield1, status := s))
  {
    hide Valid;
    SameQueueAndLog(c, c.(intOn := on, yieldOnReturn := yield1, status := s));
    SameQueueAndLog(c, Elapsed(c));
  }

  /** The invariant is about the queue, the log, the ticks and the handler flag. */
  lemma SameQueueAndLog(c: Clock, c': Clock)
    requires Valid(c) && c'.pending == c.pending && c'.fired == c.fired && c'.inHandler == c.inHandler
    requires c'.totalTicks >= c.totalTicks
    requires c'.totalTicks - c'.idleTicks - c'.systemTicks - c'.userTicks
          == c.totalTicks - c.idleTicks - c.systemTicks - c.userTicks
    ensures Valid(c')
  {
  }

  /** A tick advances the clock, fires everything due, and ends with every interrupt in the future. */
  lemma OneTickFiresAll(c: Clock, effects: nat -> Effect, n: nat)
    requires Valid(c) && c.status != IdleMode
    ensures var c' := OneTick(c, effects, n).clock;
      && Valid(c') && AllFuture(c') && c'.intOn && c'.status == c.status
      && c'.totalTicks == c.totalTicks + (if c.status == SystemMode then 10 else 1)
      && c'.idleTicks == c.idleTicks && c.fired <= c'.fired
  {
    hide Valid, AllFuture, Drain;
    var t := Elapsed(c).(intOn := false);
    FlagsKeepValid(c, false, c.yieldOnReturn, c.status);
    FlagsKeepValid(Elapsed(c), false, c.yieldOnReturn, c.status);
    DrainEnds(t, effects, n);
    DrainKeepsTicks(t, effects, n);
    var d := Drain(t, effects, n).clock;
    FlagsKeepValid(d, true, false, c.status);
  }

  lemma {:induction false} DrainKeepsTicks(c: Clock, effects: nat -> Effect, n: nat)
    requires Valid(c)
    ensures var c' := Drain(c, effects, n).clock;
      c'.idleTicks == c.idleTicks && c'.systemTicks == c.systemTicks && c'.userTicks == c.userTicks
    decreases DueCount(c.pending, c.totalTicks)
  {
    var e := effects(n);
    CheckKeepsValid(c, false, e);
    if CheckIfDue(c, false, e).fired {
      FiredOneLess(c, e);
      FireKeepsValid(c, e);
      DrainKeepsTicks(CheckIfDue(c, false, e).clock, effects, n + 1);
    }
  }

  /** Interrupt::SetLevel; handlers may not enable interrupts. */
  function SetLevel(c: Clock, on: bool, effects: nat -> Effect, n: nat): (r: Ticked)
    requires on ==> !c.inHandler
  {
    if on && !c.intOn then OneTick(c.(intOn := true), effects, n)
    else Ticked(c.(intOn := on), n, false)
  }

  datatype Idled = Idled(clock: Clock, calls: nat, halted: bool)

  /** Interrupt::Idle; it halts the machine when no interrupt but the time slice is left. */
  function Idle(c: Clock, effects: nat -> Effect, n: nat): (r: Idled)
  {
    var k := CheckIfDue(c.(status := IdleMode), true, effects(n));
    if k.fired then
      var d := Drain(k.clock, effects, n + 1);
      Idled(d.clock.(yieldOnReturn := false, status := SystemMode), d.calls, false)
    else Idled(k.clock, n, true)
  }

  /** Idling advances to the next interrupt and fires it; it halts exactly when there is none worth it. */
  lemma IdleFires(c: Clock, effects: nat -> Effect, n: nat)
    requires Valid(c)
    ensures var r := Idle(c, effects, n);
      && Valid(r.clock) && r.clock.totalTicks >= c.totalTicks && c.fired <= r.clock.fired
      && r.clock.systemTicks == c.systemTicks && r.clock.userTicks == c.userTicks
      && (r.halted <==> c.pending == [] || (|c.pending| == 1 && c.pending[0].item.kind == TimerInt))
      && (!r.halted ==> r.clock.status == SystemMode && !r.clock.yieldOnReturn)
      && (!r.halted ==> |r.clock.fired| > |c.fired| && r.clock.fired[|c.fired|].what == c.pending[0])
      && (!r.halted ==> AllFuture(r.clock) || (|r.clock.pending| == 1 && r.clock.pending[0].item.kind == TimerInt))
  {
    hide Valid, AllFuture, Drain, InsertByKey, Fire, PutBack;
    var idle, e := c.(status := IdleMode), effects(n);
    FlagsKeepValid(c, c.intOn, c.yieldOnReturn, IdleMode);
    CheckKeepsValid(idle, true, e);
    CheckFrame(idle, e);
    var k := CheckIfDue(idle, true, e);
    if k.fired {
      DrainEnds(k.clock, effects, n + 1);
      DrainKeepsTicks(k.clock, effects, n + 1);
      FlagsKeepValid(Drain(k.clock, effects, n + 1).clock, c.intOn, false, SystemMode);
    }
  }

  lemma CheckFrame(c: Clock, e: Effect)
    requires Valid(c)
    ensures var k := CheckIfDue(c, true, e);
      && k.clock.systemTicks == c.systemTicks && k.clock.userTicks == c.userTicks && k.clock.intOn == c.intOn
      && (k.fired ==> c.pending != [] && k.clock.fired == c.fired + [Firing(c.pending[0], k.clock.totalTicks)])
  {
    if c.pending != [] {
      FireKeepsValid(c, e);
    }
  }

  // ----- runs -----

  datatype Action =
    | Level(on: bool)           // SetLevel
    | Instruction               // OneTick after a user instruction
    | GoIdle                    // Idle
    | Device(r: Request)        // Schedule
    | Mode(user: bool)          // setStatus, on entering and leaving the kernel

  datatype Machine = Running(clock: Clock, calls: nat) | Halted(clock: Clock)

  function Act(m: Machine, a: Action, effects: nat -> Effect): (m': Machine)
    requires m.Running? ==> !m.clock.inHandler
  {
    if m.Halted? then m
    else
      var c, n := m.clock, m.calls;
      match a
      case Level(on) => var t := SetLevel(c, on, effects, n); Running(t.clock, t.calls)
      case Instruction => var t := OneTick(c, effects, n); Running(t.clock, t.calls)
      case GoIdle => var i := Idle(c, effects, n); if i.halted then Halted(i.clock) else Running(i.clock, i.calls)
      case Device(r) => Running(Schedule(c, r), n)
      case Mode(user) => Running(c.(status := if user then UserMode else SystemMode), n)
  }

  ghost predicate ValidMachine(m: Machine)
  {
    Valid(m.clock) && (m.Running? ==> m.clock.status != IdleMode)
  }

  /** The clock has not gone back and the log has only grown. */
  ghost predicate Later(m: Machine, m': Machine)
  {
    m.clock.totalTicks <= m'.clock.totalTicks && m.clock.fired <= m'.clock.fired
  }

  lemma ActKeepsValid(m: Machine, a: Action, effects: nat -> Effect)
    requires ValidMachine(m)
    ensures ValidMachine(Act(m, a, effects)) && Later(m, Act(m, a, effects))
  {
    hide Drain, InsertByKey, AllFuture, WellQueued, FairLog, LogBeforeQueue, TicksAddUp;
    if m.Running? {
      var c, n := m.clock, m.calls;
      match a
      case Level(on) =>
        FlagsKeepValid(c, on, c.yieldOnReturn, c.status);
        OneTickFiresAll(c.(intOn := on), effects, n);
      case Instruction => OneTickFiresAll(c, effects, n);
      case GoIdle => IdleFires(c, effects, n);
      case Device(r) => ScheduleKeepsValid(c, r);
      case Mode(user) => FlagsKeepValid(c, c.intOn, c.yieldOnReturn, if user then UserMode else SystemMode);
    }
  }

  /** The machine after a sequence of actions. */
  ghost function After(m: Machine, acts: seq<Action>, effects: nat -> Effect): (m': Machine)
    requires ValidMachine(m)
    ensures ValidMachine(m')
    decreases |acts|
  {
    if acts == [] then m
    else
      ActKeepsValid(m, acts[0], effects);
      After(Act(m, acts[0], effects), acts[1..], effects)
  }

  /**
   * In every run, whatever the handlers do: no handler ran early, due times and
   * call times never decrease, the clock never went back and the ticks add up.
   */
  lemma {:induction false} RunIsFair(m: Machine, acts: seq<Action>, effects: nat -> Effect)
    requires ValidMachine(m)
    ensures var m' := After(m, acts, effects); Later(m, m') && FairLog(m'.clock) && TicksAddUp(m'.clock)
    decreases |acts|
  {
    if acts != [] {
      ActKeepsValid(m, acts[0], effects);
      RunIsFair(Act(m, acts[0], effects), acts[1..], effects);
    }
  }

  // ----- every request is served once, at its time -----

  /** A call of Schedule: when it was made, and for what. */
  datatype Call = Call(at: int, r: Request)

  /** The entry for a request: its time is that of the call plus the delay. */
  ghost function Due(call: Call): (x: Elem<Pending>)
  {
    Elem(call.at + call.r.fromNow, Pending(call.r.handler, call.at + call.r.fromNow, call.r.kind))
  }

  ghost function Entries(log: seq<Call>): (xs: seq<Elem<Pending>>)
    ensures |xs| == |log|
  {
    seq(|log|, i requires 0 <= i < |log| => Due(log[i]))
  }

  ghost function CallsAt(at: int, rs: seq<Request>): (log: seq<Call>)
    ensures |log| == |rs|
  {
    seq(|rs|, i requires 0 <= i < |rs| => Call(at, rs[i]))
  }

  /** The calls made by the handlers: the n-th handler to run made its requests when it ran. */
  ghost function HandlerCalls(fired: seq<Firing>, effects: nat -> Effect): (log: seq<Call>)
  {
    if fired == [] then []
    else
      var n := |fired| - 1;
      HandlerCalls(fired[..n], effects) + CallsAt(fired[n].at, effects(n).requests)
  }

  /** The calls made by the devices: one for each Device action, when it was taken. */
  ghost function DeviceCalls(m: Machine, acts: seq<Action>, effects: nat -> Effect): (log: seq<Call>)
    requires ValidMachine(m)
    decreases |acts|
  {
    if acts == [] then []
    else
      ActKeepsValid(m, acts[0], effects);
      (if m.Running? && acts[0].Device? then [Call(m.clock.totalTicks, acts[0].r)] else [])
        + DeviceCalls(Act(m, acts[0], effects), acts[1..], effects)
  }

  ghost function Called(f: seq<Firing>): (s: seq<Elem<Pending>>)
    ensures |s| == |f|
  {
    seq(|f|, i requires 0 <= i < |f| => f[i].what)
  }

  /** What has been called and what is pending are the entries of the requests logged, each once. */
  ghost predicate Conserved(log: seq<Call>, fired: seq<Firing>, pending: seq<Elem<Pending>>)
  {
    multiset(Called(fired)) + multiset(pending) == multiset(Entries(log))
  }

  /** The log is that of the handlers and, before them, that of the devices. */
  ghost predicate ConservedIn(c: Clock, n: nat, devices: seq<Call>, effects: nat -> Effect)
  {
    |c.fired| == n && Conserved(devices + HandlerCalls(c.fired, effects), c.fired, c.pending)
  }

  lemma EntriesAdd(a: seq<Call>, b: seq<Call>)
    ensures Entries(a + b) == Entries(a) + Entries(b)
  {
  }

  lemma InsertConserves(log: seq<Call>, fired: seq<Firing>, pending: seq<Elem<Pending>>, call: Call)
    requires Conserved(log, fired, pending)
    ensures Conserved(log + [call], fired, InsertByKey(pending, Due(call)))
  {
    InsertKeepsItems(pending, Due(call));
    EntriesAdd(log, [call]);
    assert Entries([call]) == [Due(call)];
  }

  lemma {:induction false} ScheduleAllConserves(c: Clock, rs: seq<Request>, log: seq<Call>)
    requires Conserved(log, c.fired, c.pending)
    ensures var c' := ScheduleAll(c, rs);
            Conserved(log + CallsAt(c.totalTicks, rs), c.fired, c'.pending) && c'.fired == c.fired
    decreases |rs|
  {
    if rs == [] {
      assert log + CallsAt(c.totalTicks, rs) == log;
    } else {
      var call := Call(c.totalTicks, rs[0]);
      InsertConserves(log, c.fired, c.pending, call);
      assert Schedule(c, rs[0]).pending == InsertByKey(c.pending, Due(call));
      ScheduleAllConserves(Schedule(c, rs[0]), rs[1..], log + [call]);
      assert log + [call] + CallsAt(c.totalTicks, rs[1..]) == log + CallsAt(c.totalTicks, rs);
    }
  }

  lemma CallConserves(log: seq<Call>, fired: seq<Firing>, pending: seq<Elem<Pending>>, at: int)
    requires Conserved(log, fired, pending) && pending != []
    ensures Conserved(log, fired + [Firing(pending[0], at)], pending[1..])
  {
    assert Called(fired + [Firing(pending[0], at)]) == Called(fired) + [pending[0]];
    assert pending == [pending[0]] + pending[1..];
  }

  lemma PutBackConserves(log: seq<Call>, fired: seq<Firing>, pending: seq<Elem<Pending>>)
    requires Conserved(log, fired, pending) && pending != []
    ensures Conserved(log, fired, InsertByKey(pending[1..], pending[0]))
  {
    InsertKeepsItems(pending[1..], pending[0]);
    assert pending == [pending[0]] + pending[1..];
  }

  lemma FireConserves(c: Clock, n: nat, devices: seq<Call>, effects: nat -> Effect)
    requires ConservedIn(c, n, devices, effects) && c.pending != []
    ensures ConservedIn(Fire(c, effects(n)), n + 1, devices, effects)
  {
    hide Conserved, InsertByKey;
    var log, b := devices + HandlerCalls(c.fired, effects), BeforeCall(c);
    CallConserves(log, c.fired, c.pending, b.totalTicks);
    ScheduleAllConserves(b.(inHandler := true, status := SystemMode), effects(n).requests, log);
    assert b.fired[..n] == c.fired;
    assert log + CallsAt(b.totalTicks, effects(n).requests) == devices + HandlerCalls(b.fired, effects);
  }

  lemma CheckConserves(c: Clock, advanceClock: bool, n: nat, devices: seq<Call>, effects: nat -> Effect)
    requires ConservedIn(c, n, devices, effects)
    ensures var k := CheckIfDue(c, advanceClock, effects(n));
            ConservedIn(k.clock, if k.fired then n + 1 else n, devices, effects)
  {
    hide Conserved, InsertByKey, Fire;
    if c.pending != [] {
      PutBackConserves(devices + HandlerCalls(c.fired, effects), c.fired, c.pending);
      FireConserves(c, n, devices, effects);
    }
  }

  lemma {:induction false} DrainConserves(c: Clock, effects: nat -> Effect, n: nat, devices: seq<Call>)
    requires ConservedIn(c, n, devices, effects)
    ensures var d := Drain(c, effects, n); ConservedIn(d.clock, d.calls, devices, effects)
    decreases DueCount(c.pending, c.totalTicks)
  {
    hide ConservedIn;
    CheckConserves(c, false, n, devices, effects);
    if CheckIfDue(c, false, effects(n)).fired {
      FiredOneLess(c, effects(n));
      DrainConserves(CheckIfDue(c, false, effects(n)).clock, effects, n + 1, devices);
    }
  }

  /** The number of handlers that have run. */
  ghost function CallsOf(m: Machine): (n: nat)
  {
    if m.Running? then m.calls else |m.clock.fired|
  }

  lemma ActConserves(m: Machine, a: Action, effects: nat -> Effect, devices: seq<Call>)
    requires ValidMachine(m) && ConservedIn(m.clock, CallsOf(m), devices, effects)
    ensures var m' := Act(m, a, effects);
            var made := if m.Running? && a.Device? then [Call(m.clock.totalTicks, a.r)] else [];
            ConservedIn(m'.clock, CallsOf(m'), devices + made, effects)
  {
    hide Conserved, Drain, InsertByKey, CheckIfDue, Valid, HandlerCalls;
    assert devices + [] == devices;
    if m.Running? {
      var c, n := m.clock, m.calls;
      match a
      case Level(on) => DrainConserves(Elapsed(c.(intOn := true)).(intOn := false), effects, n, devices);
      case Instruction => DrainConserves(Elapsed(c).(intOn := false), effects, n, devices);
      case GoIdle =>
        CheckConserves(c.(status := IdleMode), true, n, devices, effects);
        if CheckIfDue(c.(status := IdleMode), true, effects(n)).fired {
          DrainConserves(CheckIfDue(c.(status := IdleMode), true, effects(n)).clock, effects, n + 1, devices);
        }
      case Device(r) => DeviceConserves(c, n, devices, effects, r);
      case Mode(user) =>
    }
  }

  lemma DeviceConserves(c: Clock, n: nat, devices: seq<Call>, effects: nat -> Effect, r: Request)
    requires ConservedIn(c, n, devices, effects)
    ensures ConservedIn(Schedule(c, r), n, devices + [Call(c.totalTicks, r)], effects)
  {
    hide InsertByKey, HandlerCalls, Conserved;
    var handlers, call := HandlerCalls(c.fired, effects), Call(c.totalTicks, r);
    InsertConserves(devices + handlers, c.fired, c.pending, call);
    AnyOrder(devices, handlers, call, c.fired, InsertByKey(c.pending, Due(call)));
  }

  lemma AnyOrder(a: seq<Call>, b: seq<Call>, call: Call, fired: seq<Firing>, pending: seq<Elem<Pending>>)
    requires Conserved(a + b + [call], fired, pending)
    ensures Conserved(a + [call] + b, fired, pending)
  {
    EntriesAdd(a + b, [call]);
    EntriesAdd(a, b);
    EntriesAdd(a + [call], b);
    EntriesAdd(a, [call]);
  }

  lemma {:induction false} RunConserves(m: Machine, acts: seq<Action>, effects: nat -> Effect, devices: seq<Call>)
    requires ValidMachine(m) && ConservedIn(m.clock, CallsOf(m), devices, effects)
    ensures var m' := After(m, acts, effects);
            ConservedIn(m'.clock, CallsOf(m'), devices + DeviceCalls(m, acts, effects), effects)
    decreases |acts|
  {
    hide ConservedIn, Act;
    if acts == [] {
      assert devices + DeviceCalls(m, acts, effects) == devices;
    } else {
      ActKeepsValid(m, acts[0], effects);
      ActConserves(m, acts[0], effects, devices);
      var made := if m.Running? && acts[0].Device? then [Call(m.clock.totalTicks, acts[0].r)] else [];
      RunConserves(Act(m, acts[0], effects), acts[1..], effects, devices + made);
      assert devices + made + DeviceCalls(Act(m, acts[0], effects), acts[1..], effects) == devices + DeviceCalls(m, acts, effects);
    }
  }

  /** The machine as Interrupt::Interrupt leaves it. */
  ghost predicate IsStart(m: Machine)
  {
    m.Running? && m.calls == 0 && m.clock == START
  }

  lemma StartIsValid(m: Machine, effects: nat -> Effect) returns (none: seq<Call>)
    requires IsStart(m)
    ensures none == [] && ValidMachine(m) && ConservedIn(m.clock, CallsOf(m), none, effects)
  {
    var c := m.clock;
    none := HandlerCalls(c.fired, effects);
    hide Conserved;
    NothingConserved(none, c.fired, c.pending);
    assert none + HandlerCalls(c.fired, effects) == none;
  }

  lemma NothingConserved(log: seq<Call>, fired: seq<Firing>, pending: seq<Elem<Pending>>)
    requires log == [] && fired == [] && pending == []
    ensures Conserved(log, fired, pending)
  {
    assert Called(fired) == [] && Entries(log) == [];
  }

  /** The handler was called because of this request, and not before its delay was over. */
  ghost predicate Answers(f: Firing, call: Call)
  {
    f.what == Due(call) && call.at + call.r.fromNow <= f.at
  }

  ghost predicate Answered(log: seq<Call>, f: Firing)
  {
    exists k | 0 <= k < |log| :: Answers(f, log[k])
  }

  /**
   * Every run of the machine from its start, whatever the handlers do: no handler ran early, due times and
   * call times never decreased and the ticks add up.  The handlers called and the interrupts pending are exactly
   * one for each request, made by an action or by a handler, for the time of the call plus its delay.
   */
  lemma RunFromStart(m: Machine, acts: seq<Action>, effects: nat -> Effect)
    requires IsStart(m)
    ensures ValidMachine(m)
    ensures var c := After(m, acts, effects).clock; FairLog(c) && TicksAddUp(c)
    ensures var c := After(m, acts, effects).clock;
            var log := DeviceCalls(m, acts, effects) + HandlerCalls(c.fired, effects);
            Conserved(log, c.fired, c.pending) && forall i | 0 <= i < |c.fired| :: Answered(log, c.fired[i])
  {
    hide IsStart, After, Conserved, DeviceCalls, HandlerCalls, ValidMachine, Answered, FairLog, TicksAddUp;
    var none := StartIsValid(m, effects);
    RunIsFair(m, acts, effects);
    RunConserves(m, acts, effects, none);
    assert none + DeviceCalls(m, acts, effects) == DeviceCalls(m, acts, effects);
    var c := After(m, acts, effects).clock;
    AllAnswer(DeviceCalls(m, acts, effects) + HandlerCalls(c.fired, effects), c);
  }

  lemma AllAnswer(log: seq<Call>, c: Clock)
    requires Conserved(log, c.fired, c.pending) && FairLog(c)
    ensures forall i | 0 <= i < |c.fired| :: Answered(log, c.fired[i])
  {
    hide Conserved, Answered;
    forall i | 0 <= i < |c.fired|
      ensures Answered(log, c.fired[i])
    {
      CallAnswers(log, c.fired, c.pending, i);
    }
  }

  lemma CallAnswers(log: seq<Call>, fired: seq<Firing>, pending: seq<Elem<Pending>>, i: nat)
    requires Conserved(log, fired, pending) && i < |fired| && fired[i].what.key <= fired[i].at
    ensures Answered(log, fired[i])
  {
    assert Called(fired)[i] in multiset(Called(fired));
    assert Called(fired)[i] in multiset(Entries(log));
    var k :| 0 <= k < |log| && Entries(log)[k] == fired[i].what;
    assert Answers(fired[i], log[k]);
  }

  // ----- when a thread has to yield -----

  /** Some handler from number n up to the one before `end` asks for a yield. */
  ghost predicate SomeYield(effects: nat -> Effect, n: nat, end: nat)
  {
    exists i | n <= i < end :: effects(i).wantsYield
  }

  lemma {:induction false} DrainYields(c: Clock, effects: nat -> Effect, n: nat)
    ensures var d := Drain(c, effects, n);
            && n <= d.calls && |d.clock.fired| == |c.fired| + d.calls - n
            && (d.clock.yieldOnReturn <==> c.yieldOnReturn || SomeYield(effects, n, d.calls))
    decreases DueCount(c.pending, c.totalTicks)
  {
    var k, d := CheckIfDue(c, false, effects(n)), Drain(c, effects, n);
    if k.fired {
      FiredOneLess(c, effects(n));
      ScheduleAllEnqueues(BeforeCall(c).(inHandler := true, status := SystemMode), effects(n).requests);
      DrainYields(k.clock, effects, n + 1);
    }
  }

  /** After a tick the thread yields exactly when one was asked for before, or by a handler of this tick. */
  lemma YieldIff(c: Clock, effects: nat -> Effect, n: nat)
    ensures var t := OneTick(c, effects, n);
            && n <= t.calls && |t.clock.fired| == |c.fired| + t.calls - n && !t.clock.yieldOnReturn
            && (t.wantsYield <==> c.yieldOnReturn || SomeYield(effects, n, t.calls))
  {
    hide Drain, SomeYield;
    DrainYields(Elapsed(c).(intOn := false), effects, n);
  }

  /** Enabling interrupts that were off is a tick; nothing else about the level takes time or calls a handler. */
  lemma LevelTicks(c: Clock, on: bool, effects: nat -> Effect, n: nat)
    requires Valid(c) && c.status != IdleMode
    ensures var t := SetLevel(c, on, effects, n);
            && t.clock.intOn == on
            && (if on && !c.intOn then
                  AllFuture(t.clock) && t.clock.totalTicks == c.totalTicks + (if c.status == SystemMode then 10 else 1)
                else
                  t.clock == c.(intOn := on) && t.calls == n && !t.wantsYield)
  {
    hide AllFuture, OneTick;
    FlagsKeepValid(c, true, c.yieldOnReturn, c.status);
    OneTickFiresAll(c.(intOn := true), effects, n);
  }

  /** Handlers leave the interrupt level alone. */
  lemma CheckKeepsLevel(c: Clock, advanceClock: bool, e: Effect)
    ensures CheckIfDue(c, advanceClock, e).clock.intOn == c.intOn
  {
    if c.pending != [] {
      ScheduleAllEnqueues(BeforeCall(c).(inHandler := true, status := SystemMode), e.requests);
    }
  }
}

/** The interrupt hardware as an object with its linked list, proved against the functions of Clocks. */
module Interrupts {
  import opened Lists
  import opened Clocks

  /** What SortedRemove gives for an empty list. */
  const NONE := Pending(0, 0, TimerInt)

  class Interrupt {
    var level: bool
    var inHandler: bool
    var yieldOnReturn: bool
    var status: MachineStatus
    const pending: List<Pending>
    var totalTicks: int
    var idleTicks: int
    var systemTicks: int
    var userTicks: int
    const effects: nat -> Effect
    var calls: nat
    ghost var fired: seq<Firing>

    ghost predicate Valid()
      reads pending, pending.spine
    {
      pending.Valid()
    }

    /** The nodes of the list. */
    ghost function Nodes(): (ns: set<object>)
      reads pending
    {
      set n | n in pending.spine
    }

    ghost function State(): (c: Clock)
      reads this, pending, pending.spine
    {
      Clock(level, inHandler, yieldOnReturn, status, pending.Contents(),
        totalTicks, idleTicks, systemTicks, userTicks, fired)
    }

    constructor (effects: nat -> Effect)
      ensures Valid() && fresh(pending) && fresh(Nodes())
      ensures State() == START && this.effects == effects && calls == 0
    {
      level, inHandler, yieldOnReturn, status := false, false, false, SystemMode;
      pending := new List();
      totalTicks, idleTicks, systemTicks, userTicks := 0, 0, 0, 0;
      this.effects := effects;
      calls := 0;
      fired := [];
    }

    method Schedule(r: Request)
      requires Valid()
      modifies this, pending, Nodes()
      ensures Valid() && fresh(Nodes() - old(Nodes()))
      ensures State() == Clocks.Schedule(old(State()), r) && calls == old(calls)
      ensures multiset(pending.Contents()) == multiset(old(pending.Contents())) + multiset{Due(Call(old(totalTicks), r))}
    {
      hide InsertByKey, List.Valid, List.Contents;
      var when := totalTicks + r.fromNow;
      var toOccur := Pending(r.handler, when, r.kind);
      PutInto(toOccur, when);
      InsertKeepsItems(old(pending.Contents()), Elem(when, toOccur));
    }

    /** The requests of a handler, one after the other. */
    method RunRequests(requests: seq<Request>)
      requires Valid()
      modifies this, pending, Nodes()
      ensures Valid() && fresh(Nodes() - old(Nodes()))
      ensures State() == ScheduleAll(old(State()), requests) && calls == old(calls)
    {
      hide Clocks.Schedule, List.Valid, List.Contents;
      for i := 0 to |requests|
        invariant Valid() && fresh(Nodes() - old(Nodes())) && calls == old(calls)
        invariant ScheduleAll(State(), requests[i..]) == ScheduleAll(old(State()), requests)
      {
        assert requests[i..][1..] == requests[i + 1..];
        Schedule(requests[i]);
      }
    }

    /** The call `(*(toOccur->handler))(toOccur->arg)`. */
    method CallHandler()
      requires Valid()
      modifies this, pending, Nodes()
      ensures Valid() && fresh(Nodes() - old(Nodes()))
      ensures State() == Clocks.CallHandler(old(State()), effects(old(calls))) && calls == old(calls) + 1
    {
      hide ScheduleAll, List.Valid, List.Contents;
      var e, before := effects(calls), status;
      calls := calls + 1;
      inHandler := true;
      status := SystemMode;
      RunRequests(e.requests);
      if e.wantsYield {
        yieldOnReturn := true;
      }
      status := before;
      inHandler := false;
    }

    /** `pending->SortedRemove(&when)` of a list that is not empty. */
    method TakeFirst() returns (toOccur: Pending, when: int)
      requires Valid() && pending.Contents() != []
      modifies pending
      ensures Valid() && Nodes() <= old(Nodes())
      ensures Elem(when, toOccur) == old(pending.Contents())[0]
      ensures pending.Contents() == old(pending.Contents())[1..]
    {
      toOccur, when := pending.SortedRemove(NONE);
    }

    /** `pending->SortedInsert(toOccur, when)` */
    method PutInto(toOccur: Pending, when: int)
      requires Valid()
      modifies pending, Nodes()
      ensures Valid() && fresh(Nodes() - old(Nodes()))
      ensures pending.Contents() == InsertByKey(old(pending.Contents()), Elem(when, toOccur))
    {
      pending.SortedInsert(toOccur, when);
    }

    /** The handler is called, and the call goes into the log. */
    method Invoke(toOccur: Pending, when: int)
      requires Valid()
      modifies this, pending, Nodes()
      ensures Valid() && fresh(Nodes() - old(Nodes())) && calls == old(calls) + 1
      ensures State() == Clocks.CallHandler(
                old(State()).(fired := old(fired) + [Firing(Elem(when, toOccur), old(totalTicks))]), effects(old(calls)))
    {
      hide Clocks.CallHandler, List.Valid, List.Contents;
      fired := fired + [Firing(Elem(when, toOccur), totalTicks)];
      CallHandler();
    }

    method CheckIfDue(advanceClock: bool) returns (r: bool)
      requires Valid() && !level
      modifies this, pending, Nodes()
      ensures Valid() && fresh(Nodes() - old(Nodes()))
      ensures Checked(State(), r) == Clocks.CheckIfDue(old(State()), advanceClock, effects(old(calls)))
      ensures calls == if r then old(calls) + 1 else old(calls)
    {
      hide InsertByKey, Clocks.CallHandler, List.Valid, List.Contents;
      if pending.IsEmpty() {
        return false;
      }
      var toOccur, when := TakeFirst();
      if advanceClock && when > totalTicks {
        idleTicks := idleTicks + (when - totalTicks);
        totalTicks := when;
      } else if when > totalTicks {
        PutInto(toOccur, when);
        return false;
      }
      if status == IdleMode && toOccur.kind == TimerInt && pending.IsEmpty() {
        PutInto(toOccur, when);
        return false;
      }
      Invoke(toOccur, when);
      return true;
    }

    /** `while (CheckIfDue(false)) ;` */
    method DrainDue()
      requires Valid() && !level
      modifies this, pending, Nodes()
      ensures Valid() && fresh(Nodes() - old(Nodes()))
      ensures Drained(State(), calls) == Drain(old(State()), effects, old(calls))
    {
      hide Clocks.CheckIfDue, List.Valid, List.Contents;
      var more := true;
      while more
        invariant Valid() && fresh(Nodes() - old(Nodes())) && !level
        invariant if more then Drain(State(), effects, calls) == Drain(old(State()), effects, old(calls))
                  else Drained(State(), calls) == Drain(old(State()), effects, old(calls))
        decreases more, DueCount(pending.Contents(), totalTicks)
      {
        ghost var c, e := State(), effects(calls);
        more := CheckIfDue(false);
        CheckKeepsLevel(c, false, e);
        if more {
          FiredOneLess(c, e);
        }
      }
    }

    /** The tick itself is counted for the mode that the machine is in. */
    method OneTick() returns (mustYield: bool)
      requires Valid()
      modifies this, pending, Nodes()
      ensures Valid() && fresh(Nodes() - old(Nodes()))
      ensures Ticked(State(), calls, mustYield) == Clocks.OneTick(old(State()), effects, old(calls))
    {
      hide Drain, List.Valid, List.Contents;
      if status == SystemMode {
        totalTicks := totalTicks + SYSTEM_TICK;
        systemTicks := systemTicks + SYSTEM_TICK;
      } else {
        totalTicks := totalTicks + USER_TICK;
        userTicks := userTicks + USER_TICK;
      }
      level := false;
      DrainDue();
      level := true;
      mustYield := yieldOnReturn;
      if yieldOnReturn {
        yieldOnReturn := false;
      }
    }

    method SetLevel(now: bool) returns (was: bool, mustYield: bool)
      requires Valid() && (now ==> !inHandler)
      modifies this, pending, Nodes()
      ensures Valid() && fresh(Nodes() - old(Nodes())) && was == old(level)
      ensures Ticked(State(), calls, mustYield) == Clocks.SetLevel(old(State()), now, effects, old(calls))
    {
      hide Clocks.OneTick, List.Valid, List.Contents;
      was, mustYield := level, false;
      level := now;
      if now && !was {
        mustYield := OneTick();
      }
    }

    method Idle() returns (halted: bool)
      requires Valid() && !level
      modifies this, pending, Nodes()
      ensures Valid() && fresh(Nodes() - old(Nodes()))
      ensures Idled(State(), calls, halted) == Clocks.Idle(old(State()), effects, old(calls))
    {
      hide Clocks.CheckIfDue, Drain, List.Valid, List.Contents;
      status := IdleMode;
      var any := CheckIfDue(true);
      if any {
        CheckKeepsLevel(old(State()).(status := IdleMode), true, effects(old(calls)));
        DrainDue();
        yieldOnReturn := false;
        status := SystemMode;
        return false;
      }
      return true;
    }
  }
}
