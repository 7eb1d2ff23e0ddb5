/**
 * The machine object of machine/machine.h: registers, memory and translation tables changed in
 * place by its methods, each proved against the step of the processor as a function.
 */
module Hardware {
  import opened Bytes
  import opened Words
  import opened Multiplier
  import opened Instructions
  import opened Translations
  import Machines

  datatype Signal = NoException | Raised(e: Exception) | Failed

  class Machine {
    const registers: array<int32>
    const mainMemory: array<byte>
    var tlb: array?<Entry>
    var pageTable: array?<Entry>
    var pageTableSize: nat

    /** There is either a translation buffer or a page table: the first two assertions of Translate. */
    ghost predicate Valid()
      reads this
    {
      && registers.Length == NUM_TOTAL_REGS && mainMemory.Length == MEMORY_SIZE
      && (tlb == null) != (pageTable == null)
      && (tlb != null ==> tlb.Length == TLB_SIZE)
      && (pageTable != null ==> pageTableSize <= pageTable.Length)
    }

    ghost function Table(): (m: Mmu)
      requires Valid()
      reads this, tlb, pageTable
    {
      if tlb == null then PageTable(pageTable[..pageTableSize]) else Tlb(tlb[..])
    }

    ghost function State(): (c: Machines.Cpu)
      requires Valid()
      reads this, registers, mainMemory, tlb, pageTable
    {
      Machines.Cpu(registers[..], mainMemory[..], Table())
    }

    /** Machine::Machine without a translation buffer; the first page table comes from an address space. */
    constructor (table: array<Entry>)
      ensures Valid() && fresh(registers) && fresh(mainMemory)
      ensures State() == Machines.Cpu(seq(NUM_TOTAL_REGS, i => 0), seq(MEMORY_SIZE, i => 0), PageTable(table[..]))
    {
      registers := new int32[NUM_TOTAL_REGS](i => 0);
      mainMemory := new byte[MEMORY_SIZE](i => 0);
      tlb, pageTable, pageTableSize := null, table, table.Length;
      new;
      assert registers[..] == seq(NUM_TOTAL_REGS, i => 0);
      assert mainMemory[..] == seq(MEMORY_SIZE, i => 0);
      assert table[..] == table[..pageTableSize];
    }

    method ReadRegister(num: nat) returns (value: int32)
      requires Valid() && num < NUM_TOTAL_REGS
      ensures value == State().regs[num]
    {
      value := registers[num];
    }

    method WriteRegister(num: nat, value: int32)
      requires Valid() && num < NUM_TOTAL_REGS
      modifies registers
      ensures State() == old(State()).(regs := old(State()).regs[num := value])
    {
      registers[num] := value;
    }

    method DelayedLoad(nextReg: RegNum, nextValue: int32)
      requires Valid() && 0 <= registers[LOAD_REG] < 32
      modifies registers
      ensures registers[..] == Instructions.DelayedLoad(old(registers[..]), nextReg, nextValue)
    {
      registers[registers[LOAD_REG]] := registers[LOAD_VALUE_REG];
      registers[LOAD_REG] := nextReg;
      registers[LOAD_VALUE_REG] := nextValue;
      registers[0] := 0;
    }

    /** Up to the call of the kernel. */
    method RaiseException(badVAddr: int32)
      requires Valid() && Machines.Sound(State())
      modifies registers
      ensures State() == Machines.RaiseException(old(State()), badVAddr)
    {
      registers[BAD_VADDR_REG] := badVAddr;
      DelayedLoad(0, 0);
    }

    /** The search of the translation buffer. */
    method SearchTlb(vpn: nat) returns (f: Found)
      requires Valid() && tlb != null
      ensures f == Search(tlb[..], vpn, 0)
    {
      var i := 0;
      while i < TLB_SIZE
        invariant 0 <= i <= TLB_SIZE
        invariant Search(tlb[..], vpn, 0) == Search(tlb[..], vpn, i)
      {
        if tlb[i].valid && tlb[i].virtualPage == vpn {
          return Hit(i);
        }
        i := i + 1;
      }
      return Missing(PageFault);
    }

    method FindEntry(vpn: nat) returns (f: Found)
      requires Valid()
      ensures f == Lookup(Table(), vpn)
    {
      if tlb == null {
        if vpn >= pageTableSize {
          return Missing(AddressError);
        } else if !pageTable[vpn].valid {
          return Missing(PageFault);
        }
        return Hit(vpn);
      }
      f := SearchTlb(vpn);
    }

    /** The use bit of the entry is set, its dirty bit after a write as well, and no bit of another entry changes. */
    ghost predicate Marked(before: Mmu, after: Mmu, i: nat, writing: bool)
      requires |after.entries| == |before.entries| && i < |before.entries|
    {
      && after.entries[i].use && (after.entries[i].dirty <==> writing || before.entries[i].dirty)
      && forall k | 0 <= k < |before.entries| && k != i :: after.entries[k] == before.entries[k]
    }

    method SetBits(i: nat, writing: bool)
      requires Valid() && i < |Table().entries|
      modifies tlb, pageTable
      ensures Table() == Touch(old(Table()), i, writing)
    {
      if tlb == null {
        pageTable[i] := Touched(pageTable[i], writing);
      } else {
        tlb[i] := Touched(tlb[i], writing);
      }
    }

    method EntryAt(i: nat) returns (e: Entry)
      requires Valid() && i < |Table().entries|
      ensures e == Table().entries[i]
    {
      e := if tlb == null then pageTable[i] else tlb[i];
    }

    method Translate(virtAddr: int32, size: Size, writing: bool) returns (t: Translation)
      requires Valid()
      modifies tlb, pageTable
      ensures t == Translations.Translate(old(Table()), virtAddr, size, writing)
      ensures Table() == if t.Physical? then Touch(old(Table()), t.entry, writing) else old(Table())
      ensures t.Physical? ==> t.addr + size <= MEMORY_SIZE
      ensures t.Physical? ==> SameMap(old(Table()), Table()) && Marked(old(Table()), Table(), t.entry, writing)
    {
      if (size == 4 && virtAddr % 4 != 0) || (size == 2 && virtAddr % 2 != 0) {
        return Fault(AddressError);
      }
      var vpn, offset := Unsigned(virtAddr) / PAGE_SIZE, Unsigned(virtAddr) % PAGE_SIZE;
      var found := FindEntry(vpn);
      if found.Missing? {
        return Fault(found.e);
      }
      var entry := EntryAt(found.i);
      if entry.readOnly && writing {
        return Fault(ReadOnly);
      }
      var pageFrame := Unsigned(entry.physicalPage);
      if pageFrame >= NUM_PHYS_PAGES {
        return Fault(BusError);
      }
      t := Physical(pageFrame * PAGE_SIZE + offset, found.i);
      InsideFrame(Table(), virtAddr, size, writing);
      TouchKeepsMap(Table(), found.i, writing);
      SetBits(found.i, writing);
    }

    ghost predicate Returns(a: Machines.Access, s: Signal, value: int32)
      requires Valid()
      reads this, registers, mainMemory, tlb, pageTable
    {
      match a
      case Value(c, x) => s == NoException && value == x && State() == c
      case Trapped(c, e) => s == Raised(e) && State() == c
    }

    method ReadMem(addr: int32, size: Size) returns (s: Signal, value: int32)
      requires Valid() && Machines.Sound(State())
      modifies registers, tlb, pageTable
      ensures Returns(Machines.ReadMem(old(State()), addr, size), s, value)
    {
      var t := Translate(addr, size, false);
      if t.Fault? {
        RaiseException(addr);
        return Raised(t.e), 0;
      }
      var pa := t.addr;
      match size {
        case 1 => value := AsChar(mainMemory[pa]);
        case 2 => value := Half(mainMemory[pa], mainMemory[pa + 1]);
        case _ => value := DecodeInt(mainMemory[pa..pa + 4]);
      }
      s := NoException;
    }

    method WriteMem(addr: int32, size: Size, value: int32) returns (s: Signal)
      requires Valid() && Machines.Sound(State())
      modifies registers, mainMemory, tlb, pageTable
      ensures Returns(Machines.WriteMem(old(State()), addr, size, value), s, value)
    {
      var t := Translate(addr, size, true);
      if t.Fault? {
        RaiseException(addr);
        return Raised(t.e);
      }
      StoreBytes(t.addr, size, value);
      s := NoException;
    }

    method StoreBytes(pa: nat, size: Size, value: int32)
      requires Valid() && pa + size <= MEMORY_SIZE
      modifies mainMemory
      ensures mainMemory[..] == Put(old(mainMemory[..]), pa, size, value)
    {
      var b := EncodeInt(value);
      forall k | 0 <= k < size {
        mainMemory[pa + k] := b[k];
      }
    }

    ghost predicate Gives(o: Machines.Outcome, s: Signal)
      requires Valid()
      reads this, registers, mainMemory, tlb, pageTable
    {
      match o
      case Completed(c) => s == NoException && State() == c
      case Trap(c, e) => s == Raised(e) && State() == c
      case Aborted => s == Failed
    }

    /** The end of a successful instruction. */
    method Finish(pcAfter: int32, nextReg: RegNum, nextValue: int32) returns (s: Signal)
      requires Valid() && Machines.Sound(State())
      modifies registers
      ensures Gives(Machines.Commit(old(State()), old(State()).regs, pcAfter, nextReg, nextValue), s)
    {
      DelayedLoad(nextReg, nextValue);
      registers[PREV_PC_REG] := registers[PC_REG];
      registers[PC_REG] := registers[NEXT_PC_REG];
      registers[NEXT_PC_REG] := pcAfter;
      s := NoException;
    }

    method SetRegisters(regs: Regs)
      requires Valid()
      modifies registers
      ensures State() == old(State()).(regs := regs)
    {
      forall k | 0 <= k < NUM_TOTAL_REGS {
        registers[k] := regs[k];
      }
      assert registers[..] == regs;
    }

    method LoadInto(op: Op, addr: int32, size: Size, rt: RegNum) returns (s: Signal)
      requires Valid() && Machines.Sound(State())
      modifies registers, tlb, pageTable
      ensures Gives(Machines.DoLoad(old(State()), op, addr, size, rt), s)
    {
      hide Loaded, PcAfter, Machines.ReadMem, Machines.Commit;
      Machines.ReadKeeps(State(), addr, size);
      var value;
      s, value := ReadMem(addr, size);
      if s == NoException {
        var before := if registers[LOAD_REG] == rt then registers[LOAD_VALUE_REG] else registers[rt];
        s := Finish(PcAfter(registers[..]), rt, Loaded(op, value, before));
      }
    }

    method StoreFrom(addr: int32, size: Size, value: int32) returns (s: Signal)
      requires Valid() && Machines.Sound(State())
      modifies registers, mainMemory, tlb, pageTable
      ensures Gives(Machines.DoStore(old(State()), addr, size, value), s)
    {
      hide PcAfter, Machines.WriteMem, Machines.Commit;
      Machines.WriteKeeps(State(), addr, size, value);
      s := WriteMem(addr, size, value);
      if s == NoException {
        s := Finish(PcAfter(registers[..]), 0, 0);
      }
    }

    method MergeFrom(op: Op, addr: int32, rt: int32) returns (s: Signal)
      requires Valid() && Machines.Sound(State())
      modifies registers, mainMemory, tlb, pageTable
      ensures Gives(Machines.DoMerge(old(State()), op, addr, rt), s)
    {
      hide Merged, Machines.ReadMem, Machines.DoStore;
      Machines.ReadKeeps(State(), addr, 4);
      var value;
      s, value := ReadMem(addr, 4);
      if s == NoException {
        s := StoreFrom(addr, 4, Merged(op, value, rt));
      }
    }

    /** MULT and MULTU, by the multiplier's loop. */
    method Multiply(i: Instr) returns (s: Signal)
      requires Valid() && Machines.Sound(State()) && (i.op == MULT || i.op == MULTU)
      modifies registers
      ensures Gives(Machines.Apply(old(State()), i), s)
    {
      hide Exact, High, Low, Machines.Commit, Execute, PcAfter;
      ghost var was := State();
      MultiplyEffect(was.regs, i);
      var pcAfter := PcAfter(registers[..]);
      var hi, lo := Mult(registers[i.rs], registers[i.rt], i.op == MULT);
      registers[HI_REG] := hi;
      registers[LO_REG] := lo;
      s := Finish(pcAfter, 0, 0);
      SameCommit(was, was.(regs := was.regs[HI_REG := hi][LO_REG := lo]), pcAfter);
    }

    method Perform(i: Instr) returns (s: Signal)
      requires Valid() && Machines.Sound(State())
      modifies registers, mainMemory, tlb, pageTable
      ensures Gives(Machines.Apply(old(State()), i), s)
    {
      hide Execute, Machines.DoLoad, Machines.DoStore, Machines.DoMerge, Machines.Commit;
      if i.op == MULT || i.op == MULTU {
        s := Multiply(i);
        return;
      }
      ghost var was := State();
      match Execute(registers[..], i) {
        case Done(regs, pcAfter) =>
          ExecuteKeepsPipeline(registers[..], i, LOAD_REG);
          SetRegisters(regs);
          s := Finish(pcAfter, 0, 0);
          SameCommit(was, was.(regs := regs), pcAfter);
        case Load(op, addr, size, rt) => s := LoadInto(op, addr, size, rt);
        case Store(addr, size, x) => s := StoreFrom(addr, size, x);
        case Merge(op, addr, rt) => s := MergeFrom(op, addr, rt);
        case Raise(e, badVAddr) =>
          RaiseException(badVAddr);
          s := Raised(e);
        case Abort => s := Failed;
      }
    }

    /** Fetch, decode and execute: exactly the step of the processor. */
    method OneInstruction() returns (s: Signal)
      requires Valid() && Machines.Sound(State())
      modifies registers, mainMemory, tlb, pageTable
      ensures Gives(Machines.OneInstruction(old(State())), s)
    {
      hide Decode, Machines.Apply, Machines.ReadMem;
      Machines.ReadKeeps(State(), registers[PC_REG], 4);
      var raw;
      s, raw := ReadMem(registers[PC_REG], 4);
      if s == NoException {
        s := Perform(Decode(Unsigned(raw)));
      }
    }
  }

  lemma MultiplyEffect(regs: Regs, i: Instr)
    requires i.op == MULT || i.op == MULTU
    ensures var p := Exact(regs[i.rs], regs[i.rt], i.op == MULT);
            Execute(regs, i) == Done(regs[HI_REG := High(p)][LO_REG := Low(p)], PcAfter(regs))
  {
  }

  lemma SameCommit(c: Machines.Cpu, d: Machines.Cpu, pcAfter: int32)
    requires d == c.(regs := d.regs) && 0 <= d.regs[LOAD_REG] < 32
    ensures Machines.Commit(c, d.regs, pcAfter, 0, 0) == Machines.Commit(d, d.regs, pcAfter, 0, 0)
  {
  }
}
