/**
 * machine/mipssim.cc (OneInstruction), machine/machine.cc (RaiseException) and machine/translate.cc
 * (ReadMem and WriteMem): one step of the processor as a function of its whole state.
 */
module Machines {
  import opened Bytes
  import opened Words
  import opened Instructions
  import opened Translations

  datatype Cpu = Cpu(regs: Regs, mem: Memory, mmu: Mmu)

  /** The pending load, if any, goes to a general register. */
  predicate Sound(c: Cpu)
  {
    0 <= c.regs[LOAD_REG] < 32
  }

  /** RaiseException up to the call of the kernel: the pending load is finished. */
  function RaiseException(c: Cpu, badVAddr: int32): (c': Cpu)
    requires Sound(c)
    ensures Sound(c')
  {
    c.(regs := DelayedLoad(c.regs[BAD_VADDR_REG := badVAddr], 0, 0))
  }

  datatype Access = Value(c: Cpu, x: int32) | Trapped(c: Cpu, e: Exception)

  function ReadMem(c: Cpu, addr: int32, size: Size): (a: Access)
    requires Sound(c)
  {
    match Translate(c.mmu, addr, size, false)
    case Fault(e) => Trapped(RaiseException(c, addr), e)
    case Physical(pa, i) =>
      InsideFrame(c.mmu, addr, size, false);
      Value(c.(mmu := Touch(c.mmu, i, false)), Fetch(c.mem, pa, size))
  }

  function WriteMem(c: Cpu, addr: int32, size: Size, x: int32): (a: Access)
    requires Sound(c)
  {
    match Translate(c.mmu, addr, size, true)
    case Fault(e) => Trapped(RaiseException(c, addr), e)
    case Physical(pa, i) =>
      InsideFrame(c.mmu, addr, size, true);
      Value(c.(mmu := Touch(c.mmu, i, true), mem := Put(c.mem, pa, size, x)), x)
  }

  datatype Outcome = Completed(c: Cpu) | Trap(c: Cpu, e: Exception) | Aborted

  /** The end of a successful instruction: the pending load is applied and the program counters advance. */
  function Commit(c: Cpu, regs: Regs, pcAfter: int32, nextReg: RegNum, nextValue: int32): (o: Outcome)
    requires 0 <= regs[LOAD_REG] < 32
  {
    Completed(c.(regs := Advance(DelayedLoad(regs, nextReg, nextValue), pcAfter)))
  }

  function DoLoad(c: Cpu, op: Op, addr: int32, size: Size, rt: RegNum): (o: Outcome)
    requires Sound(c)
  {
    match ReadMem(c, addr, size)
    case Trapped(c', e) => Trap(c', e)
    case Value(c', x) =>
      var before := if c.regs[LOAD_REG] == rt then c.regs[LOAD_VALUE_REG] else c.regs[rt];
      Commit(c', c'.regs, PcAfter(c'.regs), rt, Loaded(op, x, before))
  }

  function DoStore(c: Cpu, addr: int32, size: Size, x: int32): (o: Outcome)
    requires Sound(c)
  {
    match WriteMem(c, addr, size, x)
    case Trapped(c', e) => Trap(c', e)
    case Value(c', _) => Commit(c', c'.regs, PcAfter(c'.regs), 0, 0)
  }

  function DoMerge(c: Cpu, op: Op, addr: int32, rt: int32): (o: Outcome)
    requires Sound(c)
  {
    match ReadMem(c, addr, 4)
    case Trapped(c', e) => Trap(c', e)
    case Value(c', x) => DoStore(c', addr, 4, Merged(op, x, rt))
  }

  function Apply(c: Cpu, i: Instr): (o: Outcome)
    requires Sound(c)
  {
    match Execute(c.regs, i)
    case Done(regs, pcAfter) => ExecuteKeepsPipeline(c.regs, i, LOAD_REG); Commit(c, regs, pcAfter, 0, 0)
    case Load(op, addr, size, rt) => DoLoad(c, op, addr, size, rt)
    case Store(addr, size, x) => DoStore(c, addr, size, x)
    case Merge(op, addr, rt) => DoMerge(c, op, addr, rt)
    case Raise(e, badVAddr) => Trap(RaiseException(c, badVAddr), e)
    case Abort => Aborted
  }

  function OneInstruction(c: Cpu): (o: Outcome)
    requires Sound(c)
  {
    match ReadMem(c, c.regs[PC_REG], 4)
    case Trapped(c', e) => Trap(c', e)
    case Value(c', raw) => Apply(c', Decode(Unsigned(raw)))
  }

  // ----- what every access keeps -----

  /** The registers after a trap: those before, with the pending load in place. */
  ghost predicate Retired(before: Regs, after: Regs)
    requires 0 <= before[LOAD_REG] < 32
  {
    && after[0] == 0 && after[LOAD_REG] == 0 && after[LOAD_VALUE_REG] == 0
    && forall k | 0 < k < PREV_PC_REG :: after[k] == if k == before[LOAD_REG] then before[LOAD_VALUE_REG] else before[k]
  }

  /** Memory differs at most in frames that the processor has mapped. */
  ghost predicate Confined(mmu: Mmu, before: Memory, after: Memory)
  {
    forall k | 0 <= k < MEMORY_SIZE && after[k] != before[k] :: Mapped(mmu, k / PAGE_SIZE)
  }

  lemma ReadKeeps(c: Cpu, addr: int32, size: Size)
    requires Sound(c)
    ensures var a := ReadMem(c, addr, size);
            && a.c.mem == c.mem && SameMap(c.mmu, a.c.mmu) && Sound(a.c)
            && (a.Value? ==> a.c.regs == c.regs)
            && (a.Trapped? ==> Retired(c.regs, a.c.regs) && a.c.mmu == c.mmu)
  {
    hide Fetch, Search;
  }

  lemma WriteKeeps(c: Cpu, addr: int32, size: Size, x: int32)
    requires Sound(c)
    ensures var a := WriteMem(c, addr, size, x);
            && SameMap(c.mmu, a.c.mmu) && Sound(a.c) && Confined(c.mmu, c.mem, a.c.mem)
            && (a.Value? ==> a.c.regs == c.regs)
            && (a.Trapped? ==> Retired(c.regs, a.c.regs) && a.c.mem == c.mem && a.c.mmu == c.mmu)
  {
    hide Search, EncodeInt;
    var t, a := Translate(c.mmu, addr, size, true), WriteMem(c, addr, size, x);
    if t.Physical? {
      InsideFrame(c.mmu, addr, size, true);
      forall k | 0 <= k < MEMORY_SIZE && a.c.mem[k] != c.mem[k]
        ensures Mapped(c.mmu, k / PAGE_SIZE)
      {
        PutFrame(c.mem, t.addr, size, x, k);
        assert t.addr <= k <= t.addr + size - 1;
        assert k / PAGE_SIZE == t.addr / PAGE_SIZE;
      }
    }
  }

  lemma MappedSame(m: Mmu, n: Mmu, frame: nat)
    requires SameMap(m, n)
    ensures Mapped(m, frame) <==> Mapped(n, frame)
  {
    if Mapped(m, frame) {
      var i :| 0 <= i < |m.entries| && m.entries[i].valid && m.entries[i].physicalPage == frame;
      assert SameEntry(m.entries[i], n.entries[i]);
    }
    if Mapped(n, frame) {
      var i :| 0 <= i < |n.entries| && n.entries[i].valid && n.entries[i].physicalPage == frame;
      assert SameEntry(m.entries[i], n.entries[i]);
    }
  }

  // ----- what every instruction keeps -----

  /** The result of an instruction that started with the state c. */
  ghost predicate WellBehaved(c: Cpu, o: Outcome)
    requires Sound(c)
  {
    match o
    case Aborted => true
    case Completed(c') =>
      && Sound(c') && c'.regs[0] == 0
      && c'.regs[PC_REG] == c.regs[NEXT_PC_REG] && c'.regs[PREV_PC_REG] == c.regs[PC_REG]
      && SameMap(c.mmu, c'.mmu) && Confined(c.mmu, c.mem, c'.mem)
    case Trap(c', e) =>
      && Sound(c') && Retired(c.regs, c'.regs)
      && SameMap(c.mmu, c'.mmu) && c'.mem == c.mem
  }

  /** An access that has succeeded does not matter for what comes after it. */
  lemma BehavedAfter(c: Cpu, c1: Cpu, o: Outcome)
    requires Sound(c) && Sound(c1) && c1.regs == c.regs && c1.mem == c.mem && SameMap(c.mmu, c1.mmu)
    requires WellBehaved(c1, o)
    ensures WellBehaved(c, o)
  {
    if o.Completed? {
      forall k | 0 <= k < MEMORY_SIZE && o.c.mem[k] != c.mem[k]
        ensures Mapped(c.mmu, k / PAGE_SIZE)
      {
        MappedSame(c.mmu, c1.mmu, k / PAGE_SIZE);
      }
      SameMapTransitive(c.mmu, c1.mmu, o.c.mmu);
    } else if o.Trap? {
      SameMapTransitive(c.mmu, c1.mmu, o.c.mmu);
    }
  }

  lemma SameMapTransitive(l: Mmu, m: Mmu, n: Mmu)
    requires SameMap(l, m) && SameMap(m, n)
    ensures SameMap(l, n)
  {
    forall i | 0 <= i < |l.entries|
      ensures SameEntry(l.entries[i], n.entries[i])
    {
      assert SameEntry(l.entries[i], m.entries[i]) && SameEntry(m.entries[i], n.entries[i]);
    }
  }

  lemma CommitBehaves(c: Cpu, c': Cpu, regs: Regs, pcAfter: int32, nextReg: RegNum, nextValue: int32)
    requires Sound(c) && (forall k | PC_REG <= k < NUM_TOTAL_REGS :: regs[k] == c.regs[k])
    requires SameMap(c.mmu, c'.mmu) && Confined(c.mmu, c.mem, c'.mem)
    ensures WellBehaved(c, Commit(c', regs, pcAfter, nextReg, nextValue))
  {
    hide Confined, SameMap;
  }

  lemma LoadBehaves(c: Cpu, op: Op, addr: int32, size: Size, rt: RegNum)
    requires Sound(c)
    ensures WellBehaved(c, DoLoad(c, op, addr, size, rt))
  {
    hide ReadMem, SameMap, Loaded, PcAfter, Commit;
    ReadKeeps(c, addr, size);
    var a := ReadMem(c, addr, size);
    if a.Value? {
      var before := if c.regs[LOAD_REG] == rt then c.regs[LOAD_VALUE_REG] else c.regs[rt];
      CommitBehaves(c, a.c, a.c.regs, PcAfter(a.c.regs), rt, Loaded(op, a.x, before));
    }
  }

  lemma StoreBehaves(c: Cpu, addr: int32, size: Size, x: int32)
    requires Sound(c)
    ensures WellBehaved(c, DoStore(c, addr, size, x))
  {
    hide WriteMem, SameMap, PcAfter, Commit, Confined;
    WriteKeeps(c, addr, size, x);
    var a := WriteMem(c, addr, size, x);
    if a.Value? {
      CommitBehaves(c, a.c, a.c.regs, PcAfter(a.c.regs), 0, 0);
    }
  }

  lemma MergeBehaves(c: Cpu, op: Op, addr: int32, rt: int32)
    requires Sound(c)
    ensures WellBehaved(c, DoMerge(c, op, addr, rt))
  {
    hide ReadMem, SameMap, DoStore, Merged;
    ReadKeeps(c, addr, 4);
    var a := ReadMem(c, addr, 4);
    if a.Value? {
      StoreBehaves(a.c, addr, 4, Merged(op, a.x, rt));
      BehavedAfter(c, a.c, DoStore(a.c, addr, 4, Merged(op, a.x, rt)));
    }
  }

  lemma ApplyBehaves(c: Cpu, i: Instr)
    requires Sound(c)
    ensures WellBehaved(c, Apply(c, i))
  {
    hide Execute, Commit, DoLoad, DoStore, DoMerge;
    match Execute(c.regs, i)
    case Done(regs, pcAfter) =>
      forall k | PC_REG <= k < NUM_TOTAL_REGS
        ensures regs[k] == c.regs[k]
      {
        ExecuteKeepsPipeline(c.regs, i, k);
      }
      CommitBehaves(c, c, regs, pcAfter, 0, 0);
    case Load(op, addr, size, rt) => LoadBehaves(c, op, addr, size, rt);
    case Store(addr, size, x) => StoreBehaves(c, addr, size, x);
    case Merge(op, addr, rt) => MergeBehaves(c, op, addr, rt);
    case Raise(e, badVAddr) =>
    case Abort =>
  }

  /**
   * Every instruction keeps R0 at zero and the pending load in range, changes memory only in mapped frames
   * and the mapping not at all, and moves the program counters by one slot. One that traps leaves the
   * general registers, HI, LO, PC, NextPC and memory as they were, with the pending load in place.
   */
  lemma InstructionBehaves(c: Cpu)
    requires Sound(c)
    ensures WellBehaved(c, OneInstruction(c))
  {
    hide ReadMem, Apply, SameMap, Decode;
    ReadKeeps(c, c.regs[PC_REG], 4);
    var a := ReadMem(c, c.regs[PC_REG], 4);
    if a.Value? {
      ApplyBehaves(a.c, Decode(Unsigned(a.x)));
      BehavedAfter(c, a.c, Apply(a.c, Decode(Unsigned(a.x))));
    }
  }

  // ----- stores and loads -----

  /** The value y read is what the loads of this size turn into the value x stored. */
  ghost predicate GivesBack(size: Size, x: int32, y: int32, before: int32)
  {
    match size
    case 1 => Loaded(LBU, y, before) == x % 0x100 && (-0x80 <= x < 0x80 ==> Loaded(LB, y, before) == x)
    case 2 => Loaded(LHU, y, before) == x % 0x1_0000 && (-0x8000 <= x < 0x8000 ==> Loaded(LH, y, before) == x)
    case _ => Loaded(LW, y, before) == x
  }

  /** A load from where a store has been gives back what was stored, as far as its size goes. */
  lemma StoreThenLoad(c: Cpu, addr: int32, size: Size, x: int32, before: int32)
    requires Sound(c) && WriteMem(c, addr, size, x).Value?
    ensures var c1 := WriteMem(c, addr, size, x).c;
            && Sound(c1) && ReadMem(c1, addr, size).Value?
            && GivesBack(size, x, ReadMem(c1, addr, size).x, before)
  {
    hide Fetch, Put, Search, Translate, GivesBack;
    var t, c1 := Translate(c.mmu, addr, size, true), WriteMem(c, addr, size, x).c;
    InsideFrame(c.mmu, addr, size, true);
    ReadableToo(c.mmu, addr, size);
    TouchKeepsMap(c.mmu, t.entry, true);
    SameTranslation(c.mmu, c1.mmu, addr, size, false);
    FetchPut(c.mem, t.addr, size, x);
    LoadedBack(size, x, ReadMem(c1, addr, size).x, before);
  }

  lemma LoadedBack(size: Size, x: int32, y: int32, before: int32)
    requires match size
             case 1 => y % 0x100 == x % 0x100
             case 2 => y == x % 0x1_0000
             case _ => y == x
    ensures GivesBack(size, x, y, before)
  {
  }

  lemma ReadableToo(mmu: Mmu, addr: int32, size: Size)
    requires Translate(mmu, addr, size, true).Physical?
    ensures Translate(mmu, addr, size, false) == Translate(mmu, addr, size, true)
  {
  }

  // ----- the load delay -----

  /** A loaded value is in its register after the next instruction, whatever that is, and not before. */
  lemma LoadDelay(c: Cpu, op: Op, addr: int32, size: Size, rt: RegNum)
    requires Sound(c) && rt != 0 && DoLoad(c, op, addr, size, rt).Completed?
    ensures var c1 := DoLoad(c, op, addr, size, rt).c;
            var o := OneInstruction(c1);
            && c1.regs[rt] == (if c.regs[LOAD_REG] == rt then c.regs[LOAD_VALUE_REG] else c.regs[rt])
            && c1.regs[LOAD_REG] == rt && Sound(c1)
            && (!o.Aborted? ==> o.c.regs[rt] == c1.regs[LOAD_VALUE_REG])
  {
    hide ReadMem, Loaded, PcAfter, OneInstruction;
    ReadKeeps(c, addr, size);
    var c1 := DoLoad(c, op, addr, size, rt).c;
    LoadLands(c1);
  }

  lemma LoadLands(c: Cpu)
    requires Sound(c) && c.regs[LOAD_REG] != 0
    ensures var o := OneInstruction(c); !o.Aborted? ==> o.c.regs[c.regs[LOAD_REG]] == c.regs[LOAD_VALUE_REG]
  {
    hide ReadMem, Apply, Decode;
    ReadKeeps(c, c.regs[PC_REG], 4);
    var a := ReadMem(c, c.regs[PC_REG], 4);
    if a.Value? {
      LoadLandsAfter(a.c, Decode(Unsigned(a.x)));
    }
  }

  lemma LoadLandsAfter(c: Cpu, i: Instr)
    requires Sound(c) && c.regs[LOAD_REG] != 0
    ensures var o := Apply(c, i); !o.Aborted? ==> o.c.regs[c.regs[LOAD_REG]] == c.regs[LOAD_VALUE_REG]
  {
    hide Execute, ReadMem, WriteMem, Loaded, Merged, PcAfter;
    match Execute(c.regs, i)
    case Done(regs, pcAfter) =>
      ExecuteKeepsPipeline(c.regs, i, LOAD_REG);
      ExecuteKeepsPipeline(c.regs, i, LOAD_VALUE_REG);
    case Load(op, addr, size, rt) => ReadKeeps(c, addr, size);
    case Store(addr, size, x) => WriteKeeps(c, addr, size, x);
    case Merge(op, addr, rt) =>
      ReadKeeps(c, addr, 4);
      var a := ReadMem(c, addr, 4);
      if a.Value? {
        WriteKeeps(a.c, addr, 4, Merged(op, a.x, rt));
      }
    case Raise(e, badVAddr) =>
    case Abort =>
  }

  // ----- an instruction sees only mapped bytes -----

  /** Two processors that differ at most in bytes that they have not mapped. */
  ghost predicate Agree(c: Cpu, d: Cpu)
  {
    c.regs == d.regs && c.mmu == d.mmu && AgreeOn(c.mmu, c.mem, d.mem)
  }

  ghost predicate AgreeOn(mmu: Mmu, m: Memory, n: Memory)
  {
    forall k | 0 <= k < MEMORY_SIZE && Mapped(mmu, k / PAGE_SIZE) :: m[k] == n[k]
  }

  ghost predicate SameOutcome(o: Outcome, p: Outcome)
  {
    match o
    case Aborted => p.Aborted?
    case Completed(c) => p.Completed? && Agree(c, p.c)
    case Trap(c, e) => p.Trap? && p.e == e && Agree(c, p.c)
  }

  lemma AgreeAfterTouch(mmu: Mmu, i: nat, writing: bool, m: Memory, n: Memory)
    requires i < |mmu.entries| && AgreeOn(mmu, m, n)
    ensures AgreeOn(Touch(mmu, i, writing), m, n)
  {
    TouchKeepsMap(mmu, i, writing);
    forall k | 0 <= k < MEMORY_SIZE && Mapped(Touch(mmu, i, writing), k / PAGE_SIZE)
      ensures m[k] == n[k]
    {
      MappedSame(mmu, Touch(mmu, i, writing), k / PAGE_SIZE);
    }
  }

  lemma FetchAgrees(mmu: Mmu, m: Memory, n: Memory, pa: nat, size: Size)
    requires AgreeOn(mmu, m, n) && pa + size <= MEMORY_SIZE
    requires Mapped(mmu, pa / PAGE_SIZE) && (pa + size - 1) / PAGE_SIZE == pa / PAGE_SIZE
    ensures Fetch(m, pa, size) == Fetch(n, pa, size)
  {
    forall k | pa <= k < pa + size
      ensures m[k] == n[k]
    {
      assert k / PAGE_SIZE == pa / PAGE_SIZE;
    }
    assert m[pa..pa + size] == n[pa..pa + size];
  }

  lemma ReadAgrees(c: Cpu, d: Cpu, addr: int32, size: Size)
    requires Sound(c) && Agree(c, d)
    ensures var a, b := ReadMem(c, addr, size), ReadMem(d, addr, size);
            if a.Value? then b.Value? && a.x == b.x && Agree(a.c, b.c)
            else b.Trapped? && a.e == b.e && Agree(a.c, b.c)
  {
    hide Fetch, Search, AgreeOn, Mapped, DelayedLoad;
    var t := Translate(c.mmu, addr, size, false);
    if t.Physical? {
      InsideFrame(c.mmu, addr, size, false);
      FetchAgrees(c.mmu, c.mem, d.mem, t.addr, size);
      AgreeAfterTouch(c.mmu, t.entry, false, c.mem, d.mem);
    }
  }

  lemma PutAgrees(mmu: Mmu, m: Memory, n: Memory, pa: nat, size: Size, x: int32)
    requires AgreeOn(mmu, m, n) && pa + size <= MEMORY_SIZE
    ensures AgreeOn(mmu, Put(m, pa, size, x), Put(n, pa, size, x))
  {
    hide Put, EncodeInt;
    forall k | 0 <= k < MEMORY_SIZE && Mapped(mmu, k / PAGE_SIZE)
      ensures Put(m, pa, size, x)[k] == Put(n, pa, size, x)[k]
    {
      PutFrame(m, pa, size, x, k);
      PutFrame(n, pa, size, x, k);
    }
  }

  lemma WriteAgrees(c: Cpu, d: Cpu, addr: int32, size: Size, x: int32)
    requires Sound(c) && Agree(c, d)
    ensures var a, b := WriteMem(c, addr, size, x), WriteMem(d, addr, size, x);
            if a.Value? then b.Value? && Agree(a.c, b.c) else b.Trapped? && a.e == b.e && Agree(a.c, b.c)
  {
    hide Put, Search, AgreeOn, Mapped, DelayedLoad;
    var t := Translate(c.mmu, addr, size, true);
    if t.Physical? {
      InsideFrame(c.mmu, addr, size, true);
      PutAgrees(c.mmu, c.mem, d.mem, t.addr, size, x);
      AgreeAfterTouch(c.mmu, t.entry, true, Put(c.mem, t.addr, size, x), Put(d.mem, t.addr, size, x));
    }
  }

  lemma ApplyAgrees(c: Cpu, d: Cpu, i: Instr)
    requires Sound(c) && Agree(c, d)
    ensures SameOutcome(Apply(c, i), Apply(d, i))
  {
    hide Execute, ReadMem, WriteMem, AgreeOn, Loaded, Merged, PcAfter, DelayedLoad, Advance;
    match Execute(c.regs, i)
    case Done(regs, pcAfter) =>
    case Load(op, addr, size, rt) =>
      ReadAgrees(c, d, addr, size);
      ReadKeeps(c, addr, size);
    case Store(addr, size, x) =>
      WriteAgrees(c, d, addr, size, x);
      WriteKeeps(c, addr, size, x);
    case Merge(op, addr, rt) =>
      ReadAgrees(c, d, addr, 4);
      ReadKeeps(c, addr, 4);
      var a, b := ReadMem(c, addr, 4), ReadMem(d, addr, 4);
      if a.Value? {
        WriteAgrees(a.c, b.c, addr, 4, Merged(op, a.x, rt));
        WriteKeeps(a.c, addr, 4, Merged(op, a.x, rt));
      }
    case Raise(e, badVAddr) =>
    case Abort =>
  }

  /** What an instruction does depends on the registers, the mapping and the mapped bytes, and on nothing else. */
  lemma InstructionSeesOnlyMapped(c: Cpu, d: Cpu)
    requires Sound(c) && Agree(c, d)
    ensures SameOutcome(OneInstruction(c), OneInstruction(d))
  {
    hide ReadMem, Apply, AgreeOn, Decode;
    ReadAgrees(c, d, c.regs[PC_REG], 4);
    ReadKeeps(c, c.regs[PC_REG], 4);
    var a, b := ReadMem(c, c.regs[PC_REG], 4), ReadMem(d, c.regs[PC_REG], 4);
    if a.Value? {
      ApplyAgrees(a.c, b.c, Decode(Unsigned(a.x)));
    }
  }
}
