/** The first steps of a new process: what userprog/addrspace.cc has prepared, as the processor finds it. */
module Starts {
  import opened Bytes
  import opened Words
  import opened Instructions
  import opened Translations
  import opened Machines
  import opened Loader
  import opened Frames
  import opened AddrSpaces
  import opened Isolation

  /**
   * In a run, step i makes the process from the file, step j is the first that gives it the processor, and no step
   * in between belongs to it.
   */
  ghost predicate Begins(ss: seq<System>, xs: seq<Action>, i: nat, j: nat, pid: Pid, file: seq<byte>, stack: seq<byte>)
  {
    && IsRun(ss, xs) && i < j < |xs| && xs[i] == Create(pid, file, stack) && xs[j] == Switch(pid)
    && forall k | i < k < j :: !ActsFor(ss[k], xs[k], pid)
  }

  /** What the process is made of has stayed, and is what the processor finds. */
  lemma FoundAsMade(ss: seq<System>, xs: seq<Action>, i: nat, j: nat, pid: Pid, file: seq<byte>, stack: seq<byte>)
    requires Begins(ss, xs, i, j, pid, file, stack)
    ensures Created(ss[i], ss[i + 1], pid, file, stack)
    ensures var s, made := ss[j + 1], ss[i + 1].procs[pid];
            && s.current == Runs(pid) && pid in s.procs && s.procs[pid].table == made.table && s.regs == made.saved
            && SpaceOk(made) && View(s.mem, FramesOf(made.table)) == View(ss[i + 1].mem, FramesOf(made.table))
  {
    hide Created, FramesOf, View, SpaceOk, ActsFor;
    RunKeepsValid(ss, xs, i);
    RunKeepsValid(ss, xs, j);
    assert Step(ss[i], ss[i + 1], xs[i]) && Step(ss[j], ss[j + 1], xs[j]);
    NotYetCurrent(ss[i], ss[i + 1], pid, file, stack);
    RunIsolated(ss, xs, i + 1, j, pid);
    SwitchRestores(ss[j], ss[j + 1], pid);
  }

  lemma NotYetCurrent(s: System, s1: System, pid: Pid, file: seq<byte>, stack: seq<byte>)
    requires Isolation.Valid(s) && Created(s, s1, pid, file, stack)
    ensures pid in s1.procs && RegsOf(s1, pid) == s1.procs[pid].saved
  {
    hide Made;
  }

  /** It starts at address 0, goes on at 4, and has its stack pointer 16 bytes below the end of its pages. */
  lemma FirstRegisters(ss: seq<System>, xs: seq<Action>, i: nat, j: nat, pid: Pid, file: seq<byte>, stack: seq<byte>)
    requires Begins(ss, xs, i, j, pid, file, stack)
    ensures var s := ss[j + 1]; s.current == Runs(pid) && pid in s.procs && Sound(CpuOf(s))
    ensures var r := ss[j + 1].regs;
            && r[PC_REG] == 0 && r[NEXT_PC_REG] == 4 && r[29] == 128 * |ss[j + 1].procs[pid].table| - 16
            && forall k | 0 <= k < NUM_TOTAL_REGS && k != NEXT_PC_REG && k != 29 :: r[k] == 0
  {
    FoundAsMade(ss, xs, i, j, pid, file, stack);
    hide Begins, Made, FramesOf, View, SpaceOk;
  }

  /** The word at the address in the table's frames. */
  ghost function WordAt(mem: Memory, table: seq<Entry>, v: nat): (x: int32)
    requires v % 4 == 0 && v / 128 < |table| && 0 <= table[v / 128].physicalPage < 128
  {
    Aligned(v);
    var page := PageOf(mem, table[v / 128].physicalPage);
    DecodeInt(page[v % 128..v % 128 + 4])
  }

  ghost predicate InFrames(table: seq<Entry>)
  {
    Linear(table) && forall i | 0 <= i < |table| :: 0 <= table[i].physicalPage < 128
  }

  /** An instruction of the process is fetched from the frame of its page. */
  lemma Fetched(c: Cpu, table: seq<Entry>, v: nat)
    requires Sound(c) && c.mmu == PageTable(table) && InFrames(table) && c.regs[PC_REG] == v
    requires v % 4 == 0 && v / 128 < |table|
    ensures OneInstruction(c) == Apply(c.(mmu := Touch(c.mmu, v / 128, false)), Decode(Unsigned(WordAt(c.mem, table, v))))
  {
    hide Apply, Decode, Translate, DecodeInt, PageOf;
    PageTranslates(table, v);
    var f, o: nat := table[v / 128].physicalPage, v % 128;
    assert o + 4 <= 128 by { Aligned(v); }
    WordOfPage(c.mem, f, o);
  }

  lemma PageTranslates(table: seq<Entry>, v: int32)
    requires InFrames(table) && v >= 0 && v % 4 == 0 && v / 128 < |table|
    ensures var t := Translate(PageTable(table), v, 4, false);
            t.Physical? && t.addr == table[v / 128].physicalPage * 128 + v % 128 && t.entry == v / 128
  {
    hide Translate;
    TableTranslates(table, v, 4, false);
  }

  lemma Aligned(v: nat)
    requires v % 4 == 0
    ensures v % 128 + 4 <= 128
  {
    LowBitsOfOffset(v);
  }

  lemma WordOfPage(mem: Memory, f: nat, o: nat)
    requires f < 128 && o + 4 <= 128
    ensures PageOf(mem, f)[o..o + 4] == mem[f * 128 + o..f * 128 + o + 4]
  {
    var p, q := PageOf(mem, f)[o..o + 4], mem[f * 128 + o..f * 128 + o + 4];
    forall k | 0 <= k < 4
      ensures p[k] == q[k]
    {
      assert PageOf(mem, f)[o + k] == mem[f * 128 + (o + k)];
    }
  }

  /**
   * The first instruction of a new process is the one at virtual address 0, and the second the one at 4 when
   * the first completes; the first word is the one that the loader has put there.
   */
  lemma FirstInstructions(ss: seq<System>, xs: seq<Action>, i: nat, j: nat, pid: Pid, file: seq<byte>, stack: seq<byte>)
    requires Begins(ss, xs, i, j, pid, file, stack)
    ensures var s := ss[j + 1]; |stack| == HEADER_SIZE && s.current == Runs(pid) && pid in s.procs && Sound(CpuOf(s))
    ensures ss[j + 1].procs[pid].table != [] ==> StartsWith(CpuOf(ss[j + 1]), file, stack) && GoesOn(CpuOf(ss[j + 1]))
  {
    FirstRegisters(ss, xs, i, j, pid, file, stack);
    FoundAsMade(ss, xs, i, j, pid, file, stack);
    hide Begins, OneInstruction, FramesOf, View, SpaceOk, StartsWith, GoesOn, Made;
    var c, table := CpuOf(ss[j + 1]), ss[j + 1].procs[pid].table;
    SpaceInFrames(ss[i], ss[i + 1], c.mem, pid, file, stack);
    if table != [] {
      BothFetched(c, file, stack);
    }
  }

  ghost predicate StartsWith(c: Cpu, file: seq<byte>, stack: seq<byte>)
    requires Sound(c) && |stack| == HEADER_SIZE
  {
    var table, h := c.mmu.entries, HeaderRead(file, stack);
    && table != [] && FirstWord(c.mem, table, h, file)
    && OneInstruction(c) == Apply(c.(mmu := Touch(c.mmu, 0, false)), Decode(Unsigned(WordAt(c.mem, table, 0))))
  }

  /** The word at address 0 is the one that the loader has put there. */
  ghost predicate FirstWord(mem: Memory, table: seq<Entry>, h: Noff, file: seq<byte>)
    requires table != []
  {
    && InFrames(table) && InBounds(h, |table|)
    && WordAt(mem, table, 0) == DecodeInt(Loader.Loaded(h, file, |table|)[0][..4])
  }

  ghost predicate GoesOn(c: Cpu)
    requires Sound(c)
  {
    var o := OneInstruction(c);
    o.Completed? ==>
      var table := o.c.mmu.entries;
      && Sound(o.c) && |table| == |c.mmu.entries| && table != [] && InFrames(table)
      && OneInstruction(o.c) == Apply(o.c.(mmu := Touch(o.c.mmu, 0, false)), Decode(Unsigned(WordAt(o.c.mem, table, 4))))
  }

  lemma BothFetched(c: Cpu, file: seq<byte>, stack: seq<byte>)
    requires Sound(c) && |stack| == HEADER_SIZE && c.mmu.PageTable? && c.mmu.entries != []
    requires c.regs[PC_REG] == 0 && c.regs[NEXT_PC_REG] == 4 && FirstWord(c.mem, c.mmu.entries, HeaderRead(file, stack), file)
    ensures StartsWith(c, file, stack) && GoesOn(c)
  {
    hide OneInstruction, Linear, Apply, Loader.Loaded;
    Fetched(c, c.mmu.entries, 0);
    InstructionBehaves(c);
    var o := OneInstruction(c);
    if o.Completed? {
      SameFrames(c.mmu.entries, o.c.mmu);
      Fetched(o.c, o.c.mmu.entries, 4);
    }
  }

  lemma SpaceInFrames(s: System, s1: System, mem: Memory, pid: Pid, file: seq<byte>, stack: seq<byte>)
    requires Created(s, s1, pid, file, stack) && SpaceOk(s1.procs[pid])
    requires View(mem, FramesOf(s1.procs[pid].table)) == View(s1.mem, FramesOf(s1.procs[pid].table))
    ensures var table := s1.procs[pid].table;
            InFrames(table) && (table != [] ==> FirstWord(mem, table, HeaderRead(file, stack), file))
  {
    hide InBounds, Loader.Loaded, PageOf, Untouched;
    var table := s1.procs[pid].table;
    forall i | 0 <= i < |table|
      ensures 0 <= table[i].physicalPage < 128
    {
      assert FramesOf(table)[i] == table[i].physicalPage;
    }
    if table != [] {
      assert View(mem, FramesOf(table))[0] == PageOf(mem, table[0].physicalPage);
    }
  }

  lemma SameFrames(table: seq<Entry>, m: Mmu)
    requires SameMap(PageTable(table), m) && InFrames(table)
    ensures m == PageTable(m.entries) && |m.entries| == |table| && InFrames(m.entries)
  {
    assert forall i | 0 <= i < |table| :: SameEntry(table[i], m.entries[i]);
  }

  lemma SomePages(h: Noff)
    requires Contiguous(h)
    ensures NumPages(h) > 0
  {
  }

  /** For an object file that is loaded right, the first instruction is the first of its code. */
  lemma FirstOfCode(h: Noff, file: seq<byte>)
    requires Contiguous(h) && Right(h, file) && h.code.size >= 4 && h.code.inFileAddr as int + 4 <= |file|
    ensures InBounds(h, NumPages(h)) && NumPages(h) > 0
    ensures Loader.Loaded(h, file, NumPages(h))[0][..4] == file[h.code.inFileAddr..h.code.inFileAddr as int + 4]
  {
    hide NumPages, InBounds, Loader.Loaded, ByteAt, Wanted;
    ContiguousInBounds(h);
    SomePages(h);
    var base: int := h.code.inFileAddr;
    var pages := Loader.Loaded(h, file, NumPages(h));
    forall v | 0 <= v < 4
      ensures pages[0][v] == file[base + v]
    {
      assert ByteAt(pages, v) == Wanted(h, file, v);
      FirstBytes(h, file, pages, v);
    }
  }

  lemma FirstBytes(h: Noff, file: seq<byte>, pages: seq<Page>, v: nat)
    requires Contiguous(h) && h.code.size >= 4 && h.code.inFileAddr as int + 4 <= |file| && pages != [] && v < 4
    ensures ByteAt(pages, v) == pages[0][v] && Wanted(h, file, v) == file[h.code.inFileAddr as int + v]
  {
    assert v / PAGE_SIZE == 0 && v % PAGE_SIZE == v;
  }

  /** The translation leads to the frame of the last page; without a page there is none. */
  ghost predicate InLastPage(table: seq<Entry>, t: Translation)
  {
    if table == [] then t == Fault(AddressError)
    else t.Physical? && t.addr == table[|table| - 1].physicalPage * 128 + 112 && t.entry == |table| - 1
  }

  /** The word at the stack pointer is in the last page. */
  lemma StackPointer(ss: seq<System>, xs: seq<Action>, i: nat, j: nat, pid: Pid, file: seq<byte>, stack: seq<byte>, writing: bool)
    requires Begins(ss, xs, i, j, pid, file, stack)
    ensures var s := ss[j + 1];
            && s.current == Runs(pid) && pid in s.procs
            && InLastPage(s.procs[pid].table, Translate(CpuOf(s).mmu, s.regs[29], 4, writing))
  {
    hide Translate, InFrames, InLastPage;
    FirstRegisters(ss, xs, i, j, pid, file, stack);
    FoundInFrames(ss, xs, i, j, pid, file, stack);
    hide Begins;
    StackTranslates(ss[j + 1].procs[pid].table, ss[j + 1].regs[29], writing);
  }

  lemma FoundInFrames(ss: seq<System>, xs: seq<Action>, i: nat, j: nat, pid: Pid, file: seq<byte>, stack: seq<byte>)
    requires Begins(ss, xs, i, j, pid, file, stack)
    ensures pid in ss[j + 1].procs && InFrames(ss[j + 1].procs[pid].table)
  {
    FoundAsMade(ss, xs, i, j, pid, file, stack);
    hide Begins, FramesOf, View, SpaceOk, Made, InFrames;
    SpaceInFrames(ss[i], ss[i + 1], ss[j + 1].mem, pid, file, stack);
  }

  lemma StackTranslates(table: seq<Entry>, sp: int32, writing: bool)
    requires InFrames(table) && sp == 128 * |table| - 16
    ensures InLastPage(table, Translate(PageTable(table), sp, 4, writing))
  {
    hide Translate;
    TableTranslates(table, sp, 4, writing);
    StackPage(|table|);
  }

  lemma StackPage(n: nat)
    ensures (128 * n - 16) % 4 == 0
    ensures n > 0 ==> (128 * n - 16) / 128 == n - 1 && (128 * n - 16) % 128 == 112
  {
    assert 128 * n - 16 == 4 * (32 * n - 4);
    assert 128 * n - 16 == 128 * (n - 1) + 112;
  }
}
