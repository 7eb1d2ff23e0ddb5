/**
 * Processes on one machine: userprog/addrspace.cc for their creation and deletion, threads/thread.cc
 * for their registers at a context switch, and the processor for everything they execute.
 */
module Isolation {
  import opened Bytes
  import opened Instructions
  import opened Translations
  import opened Machines
  import opened Loader
  import opened Frames
  import opened AddrSpaces

  type Pid = nat

  datatype Current = Nobody | Runs(pid: Pid)

  datatype Process = Process(table: seq<Entry>, saved: Regs)

  datatype System = System(
    bits: seq<bool>,            // myBitmap: the frames in use
    mem: Memory,
    procs: map<Pid, Process>,
    current: Current,
    regs: Regs)                 // the machine's registers

  // ----- the steps -----

  /** The processor as the current process finds it. */
  function CpuOf(s: System): (c: Cpu)
    requires s.current.Runs? && s.current.pid in s.procs
  {
    Cpu(s.regs, s.mem, PageTable(s.procs[s.current.pid].table))
  }

  /** Its state is taken back into the system. */
  function Back(s: System, c: Cpu): (s': System)
    requires s.current.Runs? && s.current.pid in s.procs
  {
    var p := s.current.pid;
    s.(mem := c.mem, regs := c.regs, procs := s.procs[p := s.procs[p].(table := c.mmu.entries)])
  }

  datatype Action =
    | Create(pid: Pid, file: seq<byte>, stack: seq<byte>)
    | Delete(pid: Pid)
    | Switch(pid: Pid)                                  // to this process
    | Leave                                             // to a thread without an address space
    | Instruction                                       // the current process executes one
    | Read(addr: int32, size: Size)                     // the kernel reads the current process's memory
    | Write(addr: int32, size: Size, x: int32)          // the kernel writes it
    | SetRegister(num: nat, x: int32)                   // the kernel writes one of its registers
    | Interrupted                                       // an interrupt finishes its pending load

  /** `new AddrSpace` succeeds for the file, and the process starts with its initial registers. */
  ghost predicate Created(s: System, s': System, pid: Pid, file: seq<byte>, stack: seq<byte>)
  {
    && pid !in s.procs && |stack| == HEADER_SIZE && HeaderRead(file, stack).magic == NOFF_MAGIC
    && pid in s'.procs && Made(s.bits, s'.bits, s.mem, s'.mem, s'.procs[pid].table, HeaderRead(file, stack), file)
    && s'.procs == s.procs[pid := Process(s'.procs[pid].table, InitialRegs(|s'.procs[pid].table|))]
    && s'.current == s.current && s'.regs == s.regs
  }

  /** The destructor clears the bits of the frames; a deleted process is not current any more. */
  ghost predicate Deleted(s: System, s': System, pid: Pid)
  {
    && pid in s.procs
    && |s'.bits| == |s.bits|
    && (forall f | 0 <= f < |s.bits| :: s'.bits[f] <==> s.bits[f] && f !in FramesOf(s.procs[pid].table))
    && s' == s.(bits := s'.bits, procs := s.procs - {pid}, current := if s.current == Runs(pid) then Nobody else s.current)
  }

  /** SaveUserState of the old process, RestoreUserState of the new one. */
  ghost predicate Switched(s: System, s': System, pid: Pid)
  {
    && pid in s.procs
    && (s.current.Runs? ==> s.current.pid in s.procs)
    && var procs := if s.current.Runs? then s.procs[s.current.pid := s.procs[s.current.pid].(saved := s.regs)] else s.procs;
       s' == s.(procs := procs, current := Runs(pid), regs := procs[pid].saved)
  }

  /** SaveUserState of the old process; nothing is restored. */
  ghost predicate Left(s: System, s': System)
  {
    && (s.current.Runs? ==> s.current.pid in s.procs)
    && var procs := if s.current.Runs? then s.procs[s.current.pid := s.procs[s.current.pid].(saved := s.regs)] else s.procs;
       s' == s.(procs := procs, current := Nobody)
  }

  ghost predicate Executed(s: System, s': System, x: Action)
  {
    && s.current.Runs? && s.current.pid in s.procs && Sound(CpuOf(s))
    && match x
       case Instruction =>
         var o := OneInstruction(CpuOf(s));
         !o.Aborted? && s' == Back(s, o.c)
       case Read(addr, size) => s' == Back(s, ReadMem(CpuOf(s), addr, size).c)
       case Write(addr, size, v) => s' == Back(s, WriteMem(CpuOf(s), addr, size, v).c)
       case SetRegister(num, v) =>
         num < NUM_TOTAL_REGS && (num == LOAD_REG ==> 0 <= v < 32) && s' == s.(regs := s.regs[num := v])
       case Interrupted => s' == s.(regs := DelayedLoad(s.regs, 0, 0))
       case _ => false
  }

  ghost predicate Step(s: System, s': System, x: Action)
  {
    match x
    case Create(pid, file, stack) => Created(s, s', pid, file, stack)
    case Delete(pid) => Deleted(s, s', pid)
    case Switch(pid) => Switched(s, s', pid)
    case Leave => Left(s, s')
    case _ => Executed(s, s', x)
  }

  // ----- the invariant -----

  ghost predicate SpaceOk(p: Process)
  {
    Linear(p.table) && InRange(FramesOf(p.table)) && Distinct(FramesOf(p.table)) && 0 <= p.saved[LOAD_REG] < 32
  }

  ghost predicate Uses(p: Process, f: int)
  {
    f in FramesOf(p.table)
  }

  ghost predicate Valid(s: System)
  {
    && |s.bits| == NUM_PHYS_PAGES
    && (forall p | p in s.procs :: SpaceOk(s.procs[p]))
    && (forall p, q, f | p in s.procs && q in s.procs && Uses(s.procs[p], f) && Uses(s.procs[q], f) :: p == q)
    && (forall f | 0 <= f < NUM_PHYS_PAGES :: s.bits[f] <==> exists p :: p in s.procs && Uses(s.procs[p], f))
    && (s.current.Runs? ==> s.current.pid in s.procs && 0 <= s.regs[LOAD_REG] < 32)
  }

  // ----- what belongs to a process -----

  function RegsOf(s: System, p: Pid): (r: Regs)
    requires p in s.procs
  {
    if s.current == Runs(p) then s.regs else s.procs[p].saved
  }

  ghost predicate SameOwn(s: System, s': System, p: Pid)
    requires p in s.procs && p in s'.procs && SpaceOk(s.procs[p])
  {
    && RegsOf(s', p) == RegsOf(s, p)
    && s'.procs[p].table == s.procs[p].table
    && View(s'.mem, FramesOf(s.procs[p].table)) == View(s.mem, FramesOf(s.procs[p].table))
  }

  /** The process that a step belongs to, if any. */
  ghost predicate ActsFor(s: System, x: Action, p: Pid)
  {
    match x
    case Create(pid, _, _) => pid == p
    case Delete(pid) => pid == p
    case Switch(_) => false
    case Leave => false
    case _ => s.current == Runs(p)
  }

  // ----- memory confined to mapped frames -----

  lemma MappedIsUsed(p: Process, f: nat)
    ensures Mapped(PageTable(p.table), f) ==> Uses(p, f)
  {
    if Mapped(PageTable(p.table), f) {
      var i :| 0 <= i < |p.table| && p.table[i].valid && p.table[i].physicalPage == f;
      assert FramesOf(p.table)[i] == f;
    }
  }

  lemma ConfinedIsUntouched(p: Process, m: Memory, m': Memory)
    requires Confined(PageTable(p.table), m, m')
    ensures Untouched(m, m', FramesOf(p.table))
  {
    forall f | 0 <= f < NUM_PHYS_PAGES && f !in FramesOf(p.table)
      ensures PageOf(m', f) == PageOf(m, f)
    {
      MappedIsUsed(p, f);
      forall k | f * PAGE_SIZE <= k < f * PAGE_SIZE + PAGE_SIZE
        ensures m'[k] == m[k]
      {
        assert k / PAGE_SIZE == f;
      }
    }
  }

  lemma UntouchedView(m: Memory, m': Memory, changed: seq<int>, frames: seq<int>)
    requires InRange(frames) && Untouched(m, m', changed)
    requires forall i | 0 <= i < |frames| :: frames[i] !in changed
    ensures View(m', frames) == View(m, frames)
  {
    hide PageOf;
  }

  /** What the processor does for the current process: the mapping and everybody else's frames stay. */
  ghost predicate Contained(s: System, c: Cpu)
    requires s.current.Runs? && s.current.pid in s.procs
  {
    && 0 <= c.regs[LOAD_REG] < 32
    && SameMap(PageTable(s.procs[s.current.pid].table), c.mmu)
    && Untouched(s.mem, c.mem, FramesOf(s.procs[s.current.pid].table))
  }

  lemma ExecutedContained(s: System, s': System, x: Action)
    requires Valid(s) && Executed(s, s', x) && !x.SetRegister? && !x.Interrupted?
    ensures exists c :: Contained(s, c) && s' == Back(s, c)
  {
    hide OneInstruction, ReadMem, WriteMem, Untouched, Confined, SameMap, Valid;
    var c, p := CpuOf(s), s.procs[s.current.pid];
    match x
    case Instruction =>
      InstructionBehaves(c);
      var o := OneInstruction(c);
      ConfinedSame(c.mmu, c.mem);
      ConfinedIsUntouched(p, s.mem, o.c.mem);
      assert Contained(s, o.c);
    case Read(addr, size) =>
      ReadKeeps(c, addr, size);
      ConfinedSame(c.mmu, c.mem);
      ConfinedIsUntouched(p, s.mem, s.mem);
      assert Contained(s, ReadMem(c, addr, size).c);
    case Write(addr, size, v) =>
      WriteKeeps(c, addr, size, v);
      ConfinedIsUntouched(p, s.mem, WriteMem(c, addr, size, v).c.mem);
      assert Contained(s, WriteMem(c, addr, size, v).c);
  }

  lemma ConfinedSame(mmu: Mmu, m: Memory)
    ensures Confined(mmu, m, m)
  {
  }

  lemma SameMapFrames(table: seq<Entry>, m: Mmu)
    requires SameMap(PageTable(table), m) && Linear(table)
    ensures FramesOf(m.entries) == FramesOf(table) && Linear(m.entries)
  {
    assert forall i | 0 <= i < |table| :: SameEntry(table[i], m.entries[i]);
  }

  // ----- every step keeps the invariant -----

  /** A step that changes tables only in their use and dirty bits. */
  lemma SameFramesKeepValid(s: System, s': System)
    requires Valid(s) && s'.bits == s.bits && s'.procs.Keys == s.procs.Keys
    requires forall p | p in s.procs :: FramesOf(s'.procs[p].table) == FramesOf(s.procs[p].table) && SpaceOk(s'.procs[p])
    requires s'.current.Runs? ==> s'.current.pid in s'.procs && 0 <= s'.regs[LOAD_REG] < 32
    ensures Valid(s')
  {
    hide FramesOf, SpaceOk;
    assert forall p, f | p in s.procs :: Uses(s'.procs[p], f) <==> Uses(s.procs[p], f);
    forall f | 0 <= f < NUM_PHYS_PAGES
      ensures s'.bits[f] <==> exists p :: p in s'.procs && Uses(s'.procs[p], f)
    {
      if s.bits[f] {
        var p :| p in s.procs && Uses(s.procs[p], f);
        assert p in s'.procs && Uses(s'.procs[p], f);
      }
    }
  }

  lemma ExecuteKeepsValid(s: System, s': System, x: Action)
    requires Valid(s) && Executed(s, s', x)
    ensures Valid(s')
  {
    hide OneInstruction, ReadMem, WriteMem, Untouched, SameMap, FramesOf, Linear;
    if x.SetRegister? || x.Interrupted? {
      SameFramesKeepValid(s, s');
    } else {
      ExecutedContained(s, s', x);
      var c :| Contained(s, c) && s' == Back(s, c);
      SameMapFrames(s.procs[s.current.pid].table, c.mmu);
      assert SpaceOk(s.procs[s.current.pid]);
      SameFramesKeepValid(s, s');
    }
  }

  lemma SwitchKeepsValid(s: System, s': System, pid: Pid)
    requires Valid(s) && Switched(s, s', pid)
    ensures Valid(s')
  {
    hide FramesOf, Linear;
    assert SpaceOk(s.procs[pid]);
    assert s.current.Runs? ==> SpaceOk(s.procs[s.current.pid]);
    SameFramesKeepValid(s, s');
  }

  lemma LeaveKeepsValid(s: System, s': System)
    requires Valid(s) && Left(s, s')
    ensures Valid(s')
  {
    hide FramesOf, Linear;
    assert s.current.Runs? ==> SpaceOk(s.procs[s.current.pid]);
    SameFramesKeepValid(s, s');
  }

  lemma DeleteKeepsValid(s: System, s': System, pid: Pid)
    requires Valid(s) && Deleted(s, s', pid)
    ensures Valid(s')
  {
    hide FramesOf, SpaceOk;
    forall f | 0 <= f < NUM_PHYS_PAGES
      ensures s'.bits[f] <==> exists p :: p in s'.procs && Uses(s'.procs[p], f)
    {
      assert Uses(s.procs[pid], f) <==> f in FramesOf(s.procs[pid].table);
      if s'.bits[f] {
        var p :| p in s.procs && Uses(s.procs[p], f);
        assert p in s'.procs;
      }
    }
  }

  lemma CreateKeepsValid(s: System, s': System, pid: Pid, file: seq<byte>, stack: seq<byte>)
    requires Valid(s) && Created(s, s', pid, file, stack)
    ensures Valid(s')
  {
    hide FramesOf, Linear, Loader.Loaded, View, Untouched, HeaderRead, InBounds, NumPages;
    var new' := s'.procs[pid];
    var frames := FramesOf(new'.table);
    assert SpaceOk(new');
    assert forall f :: Uses(new', f) <==> f in frames;
    assert forall f | Uses(new', f) :: 0 <= f < NUM_PHYS_PAGES && !s.bits[f];
    assert forall p | p in s.procs :: SpaceOk(s.procs[p]) && s'.procs[p] == s.procs[p];
    forall p, f | p in s.procs && Uses(s.procs[p], f)
      ensures !Uses(new', f)
    {
      UsedInRange(s.procs[p], f);
    }
    forall f | 0 <= f < NUM_PHYS_PAGES
      ensures s'.bits[f] <==> exists p :: p in s'.procs && Uses(s'.procs[p], f)
    {
      if s.bits[f] {
        var p :| p in s.procs && Uses(s.procs[p], f);
        assert p in s'.procs && Uses(s'.procs[p], f);
      } else if f in frames {
        assert pid in s'.procs && Uses(s'.procs[pid], f);
      }
    }
  }

  lemma UsedInRange(p: Process, f: int)
    requires SpaceOk(p) && Uses(p, f)
    ensures 0 <= f < NUM_PHYS_PAGES
  {
    var i :| 0 <= i < |FramesOf(p.table)| && FramesOf(p.table)[i] == f;
  }

  /** Live spaces own disjoint frames and the bitmap is their union, after every step. */
  lemma StepKeepsValid(s: System, s': System, x: Action)
    requires Valid(s) && Step(s, s', x)
    ensures Valid(s')
  {
    hide Valid;
    match x
    case Create(pid, file, stack) => CreateKeepsValid(s, s', pid, file, stack);
    case Delete(pid) => DeleteKeepsValid(s, s', pid);
    case Switch(pid) => SwitchKeepsValid(s, s', pid);
    case Leave => LeaveKeepsValid(s, s');
    case _ => ExecuteKeepsValid(s, s', x);
  }

  // ----- isolation -----

  lemma OthersFrames(s: System, p: Pid, q: Pid)
    requires Valid(s) && p in s.procs && q in s.procs && p != q
    ensures forall i | 0 <= i < |FramesOf(s.procs[q].table)| :: FramesOf(s.procs[q].table)[i] !in FramesOf(s.procs[p].table)
  {
    hide FramesOf, SpaceOk;
    forall i | 0 <= i < |FramesOf(s.procs[q].table)|
      ensures FramesOf(s.procs[q].table)[i] !in FramesOf(s.procs[p].table)
    {
      var f := FramesOf(s.procs[q].table)[i];
      assert Uses(s.procs[q], f);
      assert Uses(s.procs[p], f) <==> f in FramesOf(s.procs[p].table);
    }
  }

  lemma NewFrames(s: System, s': System, pid: Pid, file: seq<byte>, stack: seq<byte>, q: Pid)
    requires Valid(s) && Created(s, s', pid, file, stack) && q in s.procs
    ensures forall i | 0 <= i < |FramesOf(s.procs[q].table)| :: FramesOf(s.procs[q].table)[i] !in FramesOf(s'.procs[pid].table)
  {
    hide Loader.Loaded, View, Untouched, HeaderRead, InBounds, NumPages, Linear;
    CreateKeepsValid(s, s', pid, file, stack);
    assert s'.procs[q] == s.procs[q];
    OthersFrames(s', pid, q);
  }

  /** No step changes the registers, the page table or a byte of a process that it does not belong to. */
  lemma StepIsolated(s: System, s': System, x: Action, q: Pid)
    requires Valid(s) && Step(s, s', x) && q in s.procs && !ActsFor(s, x, q)
    ensures q in s'.procs && SpaceOk(s.procs[q]) && SameOwn(s, s', q)
  {
    hide FramesOf, Linear, Loader.Loaded, View, Untouched, HeaderRead, InBounds, NumPages, OneInstruction, ReadMem, WriteMem;
    assert SpaceOk(s.procs[q]);
    match x
    case Create(pid, file, stack) =>
      NewFrames(s, s', pid, file, stack, q);
      UntouchedView(s.mem, s'.mem, FramesOf(s'.procs[pid].table), FramesOf(s.procs[q].table));
    case Delete(pid) =>
    case Switch(pid) =>
    case Leave =>
    case SetRegister(_, _) =>
    case Interrupted =>
    case _ =>
      ExecutedContained(s, s', x);
      var c :| Contained(s, c) && s' == Back(s, c);
      OthersFrames(s, s.current.pid, q);
      UntouchedView(s.mem, s'.mem, FramesOf(s.procs[s.current.pid].table), FramesOf(s.procs[q].table));
  }

  // ----- what a step does for its own process -----

  /** The current process finds the processor as the step leaves it, registers, memory and page table. */
  lemma StepIsOwn(s: System, s': System, x: Action)
    requires Valid(s) && Executed(s, s', x)
    ensures s'.current == s.current && s.current.pid in s'.procs && s'.bits == s.bits
    ensures var c, c' := CpuOf(s), CpuOf(s');
            match x
            case Instruction => !OneInstruction(c).Aborted? && c' == OneInstruction(c).c
            case Read(addr, size) => c' == ReadMem(c, addr, size).c
            case Write(addr, size, v) => c' == WriteMem(c, addr, size, v).c
            case SetRegister(num, v) => num < NUM_TOTAL_REGS && c' == c.(regs := c.regs[num := v])
            case Interrupted => Retired(c.regs, c'.regs) && c'.mem == c.mem && c'.mmu == c.mmu
            case _ => true
  {
    hide OneInstruction, ReadMem, WriteMem, SameMap, Valid;
    var c := CpuOf(s);
    match x
    case Instruction => InstructionBehaves(c); OnTable(c.mmu, OneInstruction(c).c.mmu);
    case Read(addr, size) => ReadKeeps(c, addr, size); OnTable(c.mmu, ReadMem(c, addr, size).c.mmu);
    case Write(addr, size, v) => WriteKeeps(c, addr, size, v); OnTable(c.mmu, WriteMem(c, addr, size, v).c.mmu);
    case _ =>
  }

  lemma OnTable(m: Mmu, n: Mmu)
    requires SameMap(m, n) && m.PageTable?
    ensures n == PageTable(n.entries)
  {
  }

  /** A process that gets the processor finds its registers, its pages and its page table. */
  lemma SwitchRestores(s: System, s': System, pid: Pid)
    requires Valid(s) && Switched(s, s', pid)
    ensures s'.current == Runs(pid) && pid in s'.procs
    ensures CpuOf(s') == Cpu(RegsOf(s, pid), s.mem, PageTable(s.procs[pid].table))
  {
  }

  // ----- runs -----

  ghost predicate IsStart(s: System)
  {
    s.bits == seq(NUM_PHYS_PAGES, i => false) && s.procs == map[] && s.current == Nobody
  }

  ghost predicate IsRun(ss: seq<System>, xs: seq<Action>)
  {
    |ss| == |xs| + 1 && IsStart(ss[0]) && forall i | 0 <= i < |xs| :: Step(ss[i], ss[i + 1], xs[i])
  }

  lemma {:induction false} RunKeepsValid(ss: seq<System>, xs: seq<Action>, i: nat)
    requires IsRun(ss, xs) && i < |ss|
    ensures Valid(ss[i])
  {
    hide Step;
    if i > 0 {
      RunKeepsValid(ss, xs, i - 1);
      StepKeepsValid(ss[i - 1], ss[i], xs[i - 1]);
    }
  }

  /**
   * Through any part of any run in which no step belongs to a process, its registers, its page table and
   * all its bytes stay as they are.
   */
  lemma {:induction false} RunIsolated(ss: seq<System>, xs: seq<Action>, i: nat, j: nat, q: Pid)
    requires IsRun(ss, xs) && i <= j < |ss| && q in ss[i].procs
    requires forall k | i <= k < j :: !ActsFor(ss[k], xs[k], q)
    ensures q in ss[j].procs && SpaceOk(ss[i].procs[q]) && SameOwn(ss[i], ss[j], q)
    decreases j - i
  {
    hide Step, FramesOf, Linear, View, ActsFor;
    RunKeepsValid(ss, xs, i);
    if i < j {
      RunIsolated(ss, xs, i, j - 1, q);
      RunKeepsValid(ss, xs, j - 1);
      StepIsolated(ss[j - 1], ss[j], xs[j - 1], q);
    }
  }

  /** What an instruction of a process does depends only on what belongs to that process. */
  lemma InstructionIsOwn(s: System, t: System, p: Pid)
    requires Valid(s) && Valid(t) && s.current == t.current == Runs(p) && SpaceOk(s.procs[p])
    requires SameOwn(s, t, p)
    ensures SameOutcome(OneInstruction(CpuOf(s)), OneInstruction(CpuOf(t)))
  {
    hide OneInstruction, FramesOf;
    var table := s.procs[p].table;
    forall k | 0 <= k < MEMORY_SIZE && Mapped(PageTable(table), k / PAGE_SIZE)
      ensures s.mem[k] == t.mem[k]
    {
      MappedIsUsed(s.procs[p], k / PAGE_SIZE);
      ByteOfView(s.mem, FramesOf(table), k);
      ByteOfView(t.mem, FramesOf(table), k);
      var i :| 0 <= i < |FramesOf(table)| && FramesOf(table)[i] == k / PAGE_SIZE;
      assert View(s.mem, FramesOf(table))[i] == View(t.mem, FramesOf(table))[i];
      assert s.mem[k] == PageOf(s.mem, k / PAGE_SIZE)[k % PAGE_SIZE];
      assert t.mem[k] == PageOf(t.mem, k / PAGE_SIZE)[k % PAGE_SIZE];
    }
    InstructionSeesOnlyMapped(CpuOf(s), CpuOf(t));
  }

  lemma ByteOfView(mem: Memory, frames: seq<int>, k: nat)
    requires InRange(frames) && k < MEMORY_SIZE && k / PAGE_SIZE in frames
    ensures mem[k] == PageOf(mem, k / PAGE_SIZE)[k % PAGE_SIZE]
  {
    assert k == k / PAGE_SIZE * PAGE_SIZE + k % PAGE_SIZE;
  }
}
