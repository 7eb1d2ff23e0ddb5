/** Physical memory as frames, and the pages of an address space in its frames. */
module Frames {
  import opened Translations
  import opened Loader

  function PageOf(mem: Memory, f: nat): (p: Page)
    requires f < NUM_PHYS_PAGES
  {
    mem[f * PAGE_SIZE..f * PAGE_SIZE + PAGE_SIZE]
  }

  function SetPage(mem: Memory, f: nat, p: Page): (m: Memory)
    requires f < NUM_PHYS_PAGES
  {
    mem[..f * PAGE_SIZE] + p + mem[f * PAGE_SIZE + PAGE_SIZE..]
  }

  lemma SetPageAt(mem: Memory, f: nat, p: Page, g: nat)
    requires f < NUM_PHYS_PAGES && g < NUM_PHYS_PAGES
    ensures PageOf(SetPage(mem, f, p), g) == if g == f then p else PageOf(mem, g)
  {
    var m := SetPage(mem, f, p);
    assert g > f ==> g * PAGE_SIZE >= f * PAGE_SIZE + PAGE_SIZE;
    assert forall k | 0 <= k < MEMORY_SIZE :: m[k] == if f * PAGE_SIZE <= k < f * PAGE_SIZE + PAGE_SIZE then p[k - f * PAGE_SIZE] else mem[k];
  }

  ghost predicate InRange(frames: seq<int>)
  {
    forall i | 0 <= i < |frames| :: 0 <= frames[i] < NUM_PHYS_PAGES
  }

  ghost predicate Distinct(frames: seq<int>)
  {
    forall i, j | 0 <= i < j < |frames| :: frames[i] != frames[j]
  }

  /** The pages in the given frames. */
  ghost function View(mem: Memory, frames: seq<int>): (pages: seq<Page>)
    requires InRange(frames)
    ensures |pages| == |frames| && forall i | 0 <= i < |frames| :: pages[i] == PageOf(mem, frames[i])
  {
    seq(|frames|, i requires 0 <= i < |frames| => PageOf(mem, frames[i]))
  }

  /** Only the given frames have changed. */
  ghost predicate Untouched(m: Memory, m': Memory, frames: seq<int>)
  {
    forall f | 0 <= f < NUM_PHYS_PAGES && f !in frames :: PageOf(m', f) == PageOf(m, f)
  }

  lemma SetPageView(m0: Memory, mem: Memory, frames: seq<int>, j: nat, p: Page)
    requires InRange(frames) && Distinct(frames) && j < |frames| && Untouched(m0, mem, frames)
    ensures View(SetPage(mem, frames[j], p), frames) == View(mem, frames)[j := p]
    ensures Untouched(m0, SetPage(mem, frames[j], p), frames)
  {
    hide PageOf, SetPage;
    var m := SetPage(mem, frames[j], p);
    forall i | 0 <= i < |frames|
      ensures View(m, frames)[i] == View(mem, frames)[j := p][i]
    {
      SetPageAt(mem, frames[j], p, frames[i]);
    }
    forall f | 0 <= f < NUM_PHYS_PAGES && f !in frames
      ensures PageOf(m, f) == PageOf(m0, f)
    {
      SetPageAt(mem, frames[j], p, f);
    }
  }
}

/** userprog/addrspace.cc: the address space object. */
module AddrSpaces {
  import opened Bytes
  import opened BitMaps
  import opened FileHeaders
  import opened Instructions
  import opened Translations
  import opened Loader
  import opened Frames
  import opened Hardware

  ghost function FramesOf(table: seq<Entry>): (frames: seq<int>)
  {
    seq(|table|, i requires 0 <= i < |table| => table[i].physicalPage)
  }

  /** A page table as the constructor makes it: page i is valid, writable and mapped. */
  ghost predicate Linear(table: seq<Entry>)
  {
    forall i | 0 <= i < |table| :: table[i].virtualPage == i && table[i].valid && !table[i].readOnly
  }

  /** The registers with which a program in n pages starts; the stack pointer is register 29. */
  function InitialRegs(n: nat): (r: Regs)
    requires n <= NUM_PHYS_PAGES
  {
    seq<int32>(NUM_TOTAL_REGS, i => 0)[NEXT_PC_REG := 4][29 := n * PAGE_SIZE - 16]
  }

  lemma LinearGrows(table: seq<Entry>, e: Entry)
    requires Linear(table) && e.virtualPage == |table| && e.valid && !e.readOnly
    ensures Linear(table + [e]) && FramesOf(table + [e]) == FramesOf(table) + [e.physicalPage as int]
  {
  }

  lemma AllottedFrames(bits: seq<bool>, bits': seq<bool>, frames: seq<int>)
    requires Allotted(bits, bits', frames) && |bits| == NUM_PHYS_PAGES
    ensures InRange(frames) && Distinct(frames)
  {
  }

  /** ReadAt or bzero to the beginning of a frame. */
  method CopyToFrame(machine: Machine, f: nat, data: seq<byte>)
    requires machine.Valid() && f < NUM_PHYS_PAGES && |data| <= PAGE_SIZE
    modifies machine.mainMemory
    ensures machine.mainMemory[..] == SetPage(old(machine.mainMemory[..]), f, Over(PageOf(old(machine.mainMemory[..]), f), data))
  {
    var at := f * PAGE_SIZE;
    forall k | 0 <= k < |data| {
      machine.mainMemory[at + k] := data[k];
    }
  }

  /** A new space: the lowest clear frames, holding the pages of the file; no other frame and no other bit changes. */
  ghost predicate Made(bits: seq<bool>, bits': seq<bool>, mem: Memory, mem': Memory, table: seq<Entry>, h: Noff, file: seq<byte>)
  {
    && |table| == NumPages(h) <= NUM_PHYS_PAGES && InBounds(h, |table|) && Linear(table)
    && Allotted(bits, bits', FramesOf(table))
    && InRange(FramesOf(table)) && Distinct(FramesOf(table))
    && View(mem', FramesOf(table)) == Loader.Loaded(h, file, |table|)
    && Untouched(mem, mem', FramesOf(table))
  }

  /**
   * How `new AddrSpace` ends: an assertion fails, a loop leaves the page table, a read is before the beginning of
   * the file, or there is a space.
   */
  datatype Outcome = AssertionFailed | OutsideTable | BeforeBeginning | Space

  /** How the loops over code and data end. */
  ghost predicate LoadsAs(h: Noff, n: nat, r: Outcome)
  {
    match r
    case AssertionFailed => false
    case Space => CodeFine(h, n) && DataFine(h, n)
    case OutsideTable => !(CodeFine(h, n) && DataFine(h, n)) && LeavesTable(h, n)
    case BeforeBeginning => !(CodeFine(h, n) && DataFine(h, n)) && !LeavesTable(h, n)
  }

  /**
   * `new AddrSpace(executable)` for every file; the stack is what the header variable held before.  Nothing is
   * promised about memory when a loop leaves the page table or a read is before the file.
   */
  method NewAddrSpace(machine: Machine, myBitmap: BitMap, executable: seq<byte>, stack: seq<byte>)
    returns (r: Outcome, space: AddrSpace?)
    requires machine.Valid() && myBitmap.Valid() && myBitmap.numBits == NUM_PHYS_PAGES
    requires myBitmap.words as object != machine.mainMemory && |stack| == HEADER_SIZE
    modifies machine.mainMemory, myBitmap.words
    ensures var h := HeaderRead(executable, stack);
            if h.magic != NOFF_MAGIC || NumPages(h) > ClearCount(old(myBitmap.Contents()))
            then r == AssertionFailed else LoadsAs(h, NumPages(h), r)
    ensures r == AssertionFailed ==>
      myBitmap.Contents() == old(myBitmap.Contents()) && machine.mainMemory[..] == old(machine.mainMemory[..])
    ensures r == Space <==> space != null
    ensures space != null ==> fresh(space) && fresh(space.pageTable)
    ensures space != null ==>
      Made(old(myBitmap.Contents()), myBitmap.Contents(), old(machine.mainMemory[..]), machine.mainMemory[..],
        space.pageTable[..], HeaderRead(executable, stack), executable)
  {
    hide LoadsAs, InBounds, NumPages, HeaderRead, View, Untouched, ClearCount, Allotted;
    space := null;
    var noffH := HeaderRead(executable, stack);
    var clear := myBitmap.NumClear();
    if noffH.magic != NOFF_MAGIC || NumPages(noffH) > clear {
      return AssertionFailed, null;
    }
    ghost var mem0 := machine.mainMemory[..];
    var s := new AddrSpace(NumPages(noffH));
    s.TakeFrames(myBitmap);
    AllottedFrames(old(myBitmap.Contents()), myBitmap.Contents(), FramesOf(s.pageTable[..]));
    NothingTouched(mem0, FramesOf(s.pageTable[..]));
    r := s.LoadImage(machine, mem0, executable, noffH);
    if r == Space {
      space := s;
    }
    NeverAsserts(noffH, NumPages(noffH), r);
  }

  lemma NothingTouched(mem: Memory, frames: seq<int>)
    ensures Untouched(mem, mem, frames)
  {
  }

  lemma NeverAsserts(h: Noff, n: nat, r: Outcome)
    requires LoadsAs(h, n, r)
    ensures r != AssertionFailed
  {
  }

  class AddrSpace {
    const pageTable: array<Entry>

    /** The page table, before the loop over it. */
    constructor (numPages: nat)
      ensures fresh(pageTable) && pageTable.Length == numPages
    {
      pageTable := new Entry[numPages](i => Entry(0, 0, false, false, false, false));
    }

    /** The two loops that read the file. */
    method LoadImage(machine: Machine, ghost mem0: Memory, executable: seq<byte>, noffH: Noff) returns (r: Outcome)
      requires Loading(machine, mem0) && pageTable.Length <= NUM_PHYS_PAGES
      modifies machine.mainMemory
      ensures Loading(machine, mem0)
      ensures LoadsAs(noffH, pageTable.Length, r)
      ensures r == Space ==>
        && InBounds(noffH, pageTable.Length)
        && View(machine.mainMemory[..], FramesOf(pageTable[..])) == Loader.Loaded(noffH, executable, pageTable.Length)
    {
      hide LoadLoop, Untouched, PageOf, Rounds, FirstPage, Fine, Leaves;
      InBoundsIff(noffH, pageTable.Length);
      ZeroFrames(machine, mem0);
      var base: int, i := noffH.code.inFileAddr, 0;
      r := Space;
      if noffH.code.size > 0 {
        r, i := LoadPages(machine, mem0, executable, base, 0, FirstPage(noffH.code), noffH.code.size as int + 1);
        if r != Space {
          return;
        }
      }
      if noffH.initData.size > 0 {
        r, i := LoadPages(machine, mem0, executable, base, i, FirstPage(noffH.initData), DataLimit(noffH));
      }
    }

    /** The loop that sets up the translation. */
    method TakeFrames(myBitmap: BitMap)
      requires myBitmap.Valid() && myBitmap.numBits == NUM_PHYS_PAGES
      requires pageTable.Length <= ClearCount(myBitmap.Contents())
      modifies pageTable, myBitmap.words
      ensures Linear(pageTable[..])
      ensures Allotted(old(myBitmap.Contents()), myBitmap.Contents(), FramesOf(pageTable[..]))
    {
      hide Allotted, ClearCount, FirstClear;
      ghost var bits := myBitmap.Contents();
      ghost var now, taken: seq<int> := bits, [];
      AllottedNone(bits);
      for i := 0 to pageTable.Length
        invariant now == myBitmap.Contents() && FramesOf(pageTable[..i]) == taken && Linear(pageTable[..i])
        invariant Allotted(bits, now, taken) && ClearCount(now) == ClearCount(bits) - i
      {
        AllotNext(bits, now, taken);
        var frame := myBitmap.Find();
        pageTable[i] := Entry(i, frame, true, false, false, false);
        now, taken := now[frame := true], taken + [frame];
        LinearGrows(pageTable[..i], pageTable[i]);
        assert pageTable[..i + 1] == pageTable[..i] + [pageTable[i]];
      }
      assert pageTable[..pageTable.Length] == pageTable[..];
    }

    /** The frames of this space are distinct, and so far nothing else in memory has changed. */
    ghost predicate Loading(machine: Machine, mem0: Memory)
      reads this, pageTable, machine, machine.mainMemory
    {
      && machine.Valid()
      && InRange(FramesOf(pageTable[..])) && Distinct(FramesOf(pageTable[..]))
      && Untouched(mem0, machine.mainMemory[..], FramesOf(pageTable[..]))
    }

    method WritePage(machine: Machine, ghost mem0: Memory, j: nat, data: seq<byte>)
      requires Loading(machine, mem0) && j < pageTable.Length && |data| <= PAGE_SIZE
      modifies machine.mainMemory
      ensures Loading(machine, mem0)
      ensures View(machine.mainMemory[..], FramesOf(pageTable[..]))
           == old(View(machine.mainMemory[..], FramesOf(pageTable[..])))[j := Over(old(View(machine.mainMemory[..], FramesOf(pageTable[..])))[j], data)]
    {
      hide Over, Untouched, PageOf, SetPage;
      ghost var frames, mem := FramesOf(pageTable[..]), machine.mainMemory[..];
      assert frames[j] == pageTable[j].physicalPage;
      CopyToFrame(machine, pageTable[j].physicalPage, data);
      assert FramesOf(pageTable[..]) == frames;
      SetPageView(mem0, mem, frames, j, Over(PageOf(mem, frames[j]), data));
    }

    /** bzero of every frame. */
    method ZeroFrames(machine: Machine, ghost mem0: Memory)
      requires Loading(machine, mem0)
      modifies machine.mainMemory
      ensures Loading(machine, mem0)
      ensures View(machine.mainMemory[..], FramesOf(pageTable[..])) == seq(pageTable.Length, k => ZeroPage())
    {
      for i := 0 to pageTable.Length
        invariant Loading(machine, mem0)
        invariant forall k | 0 <= k < i :: View(machine.mainMemory[..], FramesOf(pageTable[..]))[k] == ZeroPage()
      {
        WritePage(machine, mem0, i, ZeroPage());
      }
    }

    /** A loading loop; it ends early where it leaves the table or reads before the file. */
    method LoadPages(machine: Machine, ghost mem0: Memory, file: seq<byte>, base: int, from: nat, firstPage: int, limit: int)
      returns (r: Outcome, i: nat)
      requires Loading(machine, mem0)
      modifies machine.mainMemory
      ensures Loading(machine, mem0)
      ensures r == Space <==> Fine(base, from, firstPage, limit, pageTable.Length)
      ensures r == OutsideTable <==> Leaves(base, from, firstPage, limit, pageTable.Length)
      ensures r != AssertionFailed
      ensures r == Space ==>
        && (from < limit ==> base + from >= 0 && firstPage >= 0 && firstPage + Rounds(from, limit) <= pageTable.Length)
        && View(machine.mainMemory[..], FramesOf(pageTable[..]))
        == LoadLoop(old(View(machine.mainMemory[..], FramesOf(pageTable[..]))), file, base, from, firstPage, limit)
        && i == from + PAGE_SIZE * Rounds(from, limit)
    {
      hide Chunk, Over, Untouched, PageOf, Rounds, LoadLoop, Fine, Leaves;
      ghost var k, n := 0, pageTable.Length;
      ghost var pages := View(machine.mainMemory[..], FramesOf(pageTable[..]));
      ghost var start := pages;
      var j := firstPage;
      i := from;
      FineIff(base, from, firstPage, limit, n);
      RoundsAre(from, limit, 0);
      SoFarStarts(start, file, base + from, firstPage);
      while i < limit
        invariant Loading(machine, mem0) && pages == View(machine.mainMemory[..], FramesOf(pageTable[..]))
        invariant i == from + PAGE_SIZE * k && j == firstPage + k
        invariant forall m: nat | m < k :: Good(base, from, firstPage, n, m)
        invariant k <= Rounds(from, limit) && SoFar(start, pages, file, base + from, firstPage, k)
      {
        RoundsAre(from, limit, k);
        if !(0 <= j < pageTable.Length) {
          LeavesAt(base, from, firstPage, limit, n, k);
          return OutsideTable, i;
        }
        if base + i < 0 {
          ReadsBefore(base, from, firstPage, limit, n, k);
          return BeforeBeginning, i;
        }
        WritePage(machine, mem0, j, Chunk(file, base + i));
        SoFarStep(start, pages, file, base + from, firstPage, k);
        pages := pages[j := Over(pages[j], Chunk(file, base + i))];
        i, j, k := i + PAGE_SIZE, j + 1, k + 1;
      }
      RoundsAre(from, limit, k);
      AllGood(base, from, firstPage, limit, n, k);
      SoFarEnds(start, pages, file, base, from, firstPage, limit);
      r := Space;
    }

    /** The destructor: exactly the frames of this space become clear. */
    method CleanMyBitmap(myBitmap: BitMap)
      requires myBitmap.Valid() && myBitmap.numBits == NUM_PHYS_PAGES && InRange(FramesOf(pageTable[..]))
      modifies myBitmap.words
      ensures forall f | 0 <= f < NUM_PHYS_PAGES ::
          myBitmap.Contents()[f] <==> old(myBitmap.Contents())[f] && f !in FramesOf(pageTable[..])
    {
      ghost var frames := FramesOf(pageTable[..]);
      for i := 0 to pageTable.Length
        invariant FramesOf(pageTable[..]) == frames
        invariant forall f | 0 <= f < NUM_PHYS_PAGES ::
            myBitmap.Contents()[f] <==> old(myBitmap.Contents())[f] && f !in frames[..i]
      {
        assert frames[i] == pageTable[i].physicalPage;
        myBitmap.Clear(pageTable[i].physicalPage);
        assert frames[..i + 1] == frames[..i] + [frames[i]];
      }
      assert frames[..pageTable.Length] == frames;
    }

    /** The machine without a translation buffer is told where the page table is. */
    method RestoreState(machine: Machine)
      requires machine.Valid() && machine.tlb == null
      modifies machine
      ensures machine.Valid() && machine.Table() == PageTable(pageTable[..])
      ensures machine.State() == old(machine.State()).(mmu := PageTable(pageTable[..]))
    {
      machine.pageTable := pageTable;
      machine.pageTableSize := pageTable.Length;
      assert pageTable[..pageTable.Length] == pageTable[..];
    }

    method InitRegisters(machine: Machine)
      requires machine.Valid() && pageTable.Length <= NUM_PHYS_PAGES
      modifies machine.registers
      ensures machine.registers[PC_REG] == 0 && machine.registers[NEXT_PC_REG] == 4
      ensures machine.registers[29] == 128 * pageTable.Length - 16
      ensures forall k | 0 <= k < NUM_TOTAL_REGS && k != NEXT_PC_REG && k != 29 :: machine.registers[k] == 0
      ensures machine.registers[..] == InitialRegs(pageTable.Length)
    {
      for i := 0 to NUM_TOTAL_REGS
        invariant machine.Valid() && forall k | 0 <= k < i :: machine.registers[k] == 0
      {
        machine.WriteRegister(i, 0);
      }
      machine.WriteRegister(PC_REG, 0);
      machine.WriteRegister(NEXT_PC_REG, 4);
      machine.WriteRegister(29, pageTable.Length * PAGE_SIZE - 16);
    }
  }

  /** threads/thread.cc: the copy of the user registers that a thread keeps while it is not running. */
  class UserThread {
    const userRegisters: array<int32>

    ghost predicate Valid()
    {
      userRegisters.Length == NUM_TOTAL_REGS
    }

    constructor ()
      ensures Valid() && fresh(userRegisters)
    {
      userRegisters := new int32[NUM_TOTAL_REGS];
    }

    method SaveUserState(machine: Machine)
      requires Valid() && machine.Valid() && machine.registers != userRegisters
      modifies userRegisters
      ensures userRegisters[..] == machine.registers[..]
    {
      for i := 0 to NUM_TOTAL_REGS
        invariant userRegisters[..i] == machine.registers[..i]
      {
        var value := machine.ReadRegister(i);
        userRegisters[i] := value;
      }
    }

    method RestoreUserState(machine: Machine)
      requires Valid() && machine.Valid() && machine.registers != userRegisters
      modifies machine.registers
      ensures machine.registers[..] == userRegisters[..]
    {
      for i := 0 to NUM_TOTAL_REGS
        invariant machine.Valid() && machine.registers[..i] == userRegisters[..i]
      {
        machine.WriteRegister(i, userRegisters[i]);
      }
    }
  }
}
