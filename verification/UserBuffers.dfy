/** userprog/user.cc: copying between kernel buffers and the memory of the running program. */
module UserBuffers {
  import opened Bytes
  import opened Words
  import opened Translations
  import opened Machines
  import opened Frames
  import opened AddrSpaces
  import opened Hardware

  /** The k-th address of a buffer: k bytes on, in 32 bits. */
  ghost function Addr(usrAddr: int32, k: nat): (a: int32)
    ensures (a - usrAddr as int - k) % 0x1_0000_0000 == 0
  {
    Wrap(usrAddr as int + k)
  }

  lemma AddrIs(usrAddr: int32, k: nat)
    ensures Wrap(usrAddr as int + k) == Addr(usrAddr, k)
  {
  }

  ghost predicate Reaches(mmu: Mmu, addr: int32, writing: bool)
  {
    Translate(mmu, addr, 1, writing).Physical?
  }

  /** Every byte of the buffer can be accessed, so that no exception occurs. */
  ghost predicate AllReach(mmu: Mmu, usrAddr: int32, n: int, writing: bool)
  {
    forall k | 0 <= k < n :: Reaches(mmu, Addr(usrAddr, k), writing)
  }

  /** Where a byte of user memory is. */
  ghost function Phys(mmu: Mmu, addr: int32): (pa: nat)
    requires Reaches(mmu, addr, false)
    ensures pa < MEMORY_SIZE
  {
    InsideFrame(mmu, addr, 1, false);
    Translate(mmu, addr, 1, false).addr
  }

  /** No frame holds two pages. */
  ghost predicate OneToOne(mmu: Mmu)
  {
    mmu.PageTable? &&
    forall i, j | 0 <= i < j < |mmu.entries| && mmu.entries[i].valid && mmu.entries[j].valid ::
      mmu.entries[i].physicalPage != mmu.entries[j].physicalPage
  }

  /** The page table of an address space is one-to-one. */
  lemma SpaceIsOneToOne(table: seq<Entry>)
    requires Distinct(FramesOf(table))
    ensures OneToOne(PageTable(table))
  {
    forall i, j | 0 <= i < j < |table|
      ensures table[i].physicalPage != table[j].physicalPage
    {
      assert FramesOf(table)[i] != FramesOf(table)[j];
    }
  }

  /** What can be written can be read, at the same place. */
  lemma WritableIsReadable(mmu: Mmu, addr: int32)
    requires Reaches(mmu, addr, true)
    ensures Reaches(mmu, addr, false) && Translate(mmu, addr, 1, true).addr == Phys(mmu, addr)
  {
    ReadableToo(mmu, addr, 1);
  }

  lemma PhysSame(m: Mmu, n: Mmu, addr: int32, writing: bool)
    requires SameMap(m, n)
    ensures Reaches(m, addr, writing) <==> Reaches(n, addr, writing)
    ensures Reaches(m, addr, false) ==> Reaches(n, addr, false) && Phys(m, addr) == Phys(n, addr)
  {
    SameTranslation(m, n, addr, 1, writing);
    SameTranslation(m, n, addr, 1, false);
  }

  /** Different addresses of the program are different bytes of memory. */
  lemma PhysDistinct(mmu: Mmu, a: int32, b: int32)
    requires OneToOne(mmu) && Reaches(mmu, a, false) && Reaches(mmu, b, false) && a != b
    ensures Phys(mmu, a) != Phys(mmu, b)
  {
    InsideFrame(mmu, a, 1, false);
    InsideFrame(mmu, b, 1, false);
    assert Unsigned(a) == PAGE_SIZE * Vpn(a) + Offset(a) && Unsigned(b) == PAGE_SIZE * Vpn(b) + Offset(b);
    assert Vpn(a) != Vpn(b) ==> mmu.entries[Vpn(a)].physicalPage != mmu.entries[Vpn(b)].physicalPage;
  }

  lemma AddrDistinct(usrAddr: int32, j: nat, k: nat)
    requires j < k < 0x8000_0000
    ensures Addr(usrAddr, j) != Addr(usrAddr, k)
  {
  }

  /** The first n bytes of the buffer are in the program's memory, and no other byte of memory has changed. */
  ghost predicate Copied(mmu: Mmu, mem0: Memory, mem: Memory, usrAddr: int32, buff: seq<byte>, n: nat)
    requires n <= |buff| && AllReach(mmu, usrAddr, n, false)
  {
    && (forall k | 0 <= k < n :: mem[Phys(mmu, Addr(usrAddr, k))] == buff[k])
    && (forall a | 0 <= a < MEMORY_SIZE && mem[a] != mem0[a] :: exists k | 0 <= k < n :: a == Phys(mmu, Addr(usrAddr, k)))
  }

  lemma CopyOne(mmu: Mmu, mem0: Memory, mem: Memory, usrAddr: int32, buff: seq<byte>, i: nat)
    requires i < |buff| && i < 0x8000_0000 && OneToOne(mmu) && AllReach(mmu, usrAddr, i + 1, false)
    requires Copied(mmu, mem0, mem, usrAddr, buff, i)
    ensures Copied(mmu, mem0, Put(mem, Phys(mmu, Addr(usrAddr, i)), 1, AsChar(buff[i])), usrAddr, buff, i + 1)
  {
    hide Put, Translate, Phys, EncodeInt, Addr;
    var pa, x := Phys(mmu, Addr(usrAddr, i)), AsChar(buff[i]);
    var mem' := Put(mem, pa, 1, x);
    LowBytes(x);
    forall k | 0 <= k < i + 1
      ensures mem'[Phys(mmu, Addr(usrAddr, k))] == buff[k]
    {
      PutFrame(mem, pa, 1, x, Phys(mmu, Addr(usrAddr, k)));
      if k < i {
        AddrDistinct(usrAddr, k, i);
        PhysDistinct(mmu, Addr(usrAddr, k), Addr(usrAddr, i));
      }
    }
    forall a | 0 <= a < MEMORY_SIZE && mem'[a] != mem0[a]
      ensures exists k | 0 <= k < i + 1 :: a == Phys(mmu, Addr(usrAddr, k))
    {
      PutFrame(mem, pa, 1, x, a);
    }
  }

  /** Nothing but memory and the use and dirty bits may change. */
  ghost predicate SameBut(c: Cpu, c': Cpu)
  {
    c'.regs == c.regs && SameMap(c.mmu, c'.mmu)
  }

  lemma WriteByte(c: Cpu, c0: Cpu, addr: int32, x: int32)
    requires Sound(c) && SameBut(c0, c)
    ensures var a := WriteMem(c, addr, 1, x);
            if Reaches(c0.mmu, addr, true)
            then Reaches(c0.mmu, addr, false) && a.Value? && SameBut(c0, a.c) && a.c.mem == Put(c.mem, Phys(c0.mmu, addr), 1, x)
            else a.Trapped? && a.c.mem == c.mem
  {
    hide Put, SameMap, Translate;
    if Reaches(c0.mmu, addr, true) {
      WritableIsReadable(c0.mmu, addr);
    }
    SameTranslation(c0.mmu, c.mmu, addr, 1, true);
    WriteKeeps(c, addr, 1, x);
    SameMapTransitive(c0.mmu, c.mmu, WriteMem(c, addr, 1, x).c.mmu);
  }

  lemma ReadByte(c: Cpu, c0: Cpu, addr: int32)
    requires Sound(c) && SameBut(c0, c)
    ensures var a := ReadMem(c, addr, 1);
            a.c.mem == c.mem &&
            if Reaches(c0.mmu, addr, false)
            then a.Value? && SameBut(c0, a.c) && a.x % 0x100 == c.mem[Phys(c0.mmu, addr)]
            else a.Trapped?
  {
    hide SameMap, Translate;
    SameTranslation(c0.mmu, c.mmu, addr, 1, false);
    ReadKeeps(c, addr, 1);
    SameMapTransitive(c0.mmu, c.mmu, ReadMem(c, addr, 1).c.mmu);
  }

  /** How many bytes a request asks for; a negative count asks for none. */
  function Asked(byteCount: int): (n: nat)
  {
    if byteCount < 0 then 0 else byteCount
  }

  /** The access stopped at the first byte that cannot be reached, or went through to the end. */
  ghost predicate StopsAt(mmu: Mmu, usrAddr: int32, n: nat, writing: bool, done: nat)
  {
    done <= n && AllReach(mmu, usrAddr, done, writing) && (done < n ==> !Reaches(mmu, Addr(usrAddr, done), writing))
  }

  /** The bytes up to the first that cannot be written are copied; a failed access ends in the kernel's assertion. */
  method WriteBuffToUsr(machine: Machine, buff: seq<byte>, usrAddr: int32, byteCount: int) returns (done: nat)
    requires machine.Valid() && Sound(machine.State()) && OneToOne(machine.Table())
    requires byteCount <= |buff| && byteCount < 0x8000_0000
    modifies machine.registers, machine.mainMemory, machine.tlb, machine.pageTable
    ensures StopsAt(old(machine.Table()), usrAddr, Asked(byteCount), true, done)
    ensures AllReach(old(machine.Table()), usrAddr, done, false)
    ensures Copied(old(machine.Table()), old(machine.State()).mem, machine.State().mem, usrAddr, buff, done)
    ensures done == Asked(byteCount) ==> SameBut(old(machine.State()), machine.State())
  {
    hide Put, Translate, WriteMem, Addr, OneToOne, SameMap, Copied, Reaches;
    ghost var c0 := machine.State();
    StartCopy(c0, usrAddr, buff);
    done := 0;
    while done < byteCount
      invariant 0 <= done <= Asked(byteCount) && SameBut(c0, machine.State())
      invariant AllReach(c0.mmu, usrAddr, done, true) && AllReach(c0.mmu, usrAddr, done, false)
      invariant Copied(c0.mmu, c0.mem, machine.State().mem, usrAddr, buff, done)
    {
      ghost var c := machine.State();
      var addr := Wrap(usrAddr as int + done);
      AddrIs(usrAddr, done);
      WriteByte(c, c0, addr, AsChar(buff[done]));
      var s := machine.WriteMem(addr, 1, AsChar(buff[done]));
      if s != NoException {
        return;
      }
      CopyOne(c0.mmu, c0.mem, c.mem, usrAddr, buff, done);
      done := done + 1;
    }
  }

  lemma StartCopy(c: Cpu, usrAddr: int32, buff: seq<byte>)
    ensures SameBut(c, c) && Copied(c.mmu, c.mem, c.mem, usrAddr, buff, 0)
  {
  }

  method ReadBuffFromUsr(machine: Machine, usrAddr: int32, outBuff: array<byte>, byteCount: int) returns (done: nat)
    requires machine.Valid() && Sound(machine.State())
    requires byteCount <= outBuff.Length && byteCount < 0x8000_0000
    requires outBuff != machine.mainMemory && outBuff as object != machine.registers
    modifies machine.registers, machine.tlb, machine.pageTable, outBuff
    ensures StopsAt(old(machine.Table()), usrAddr, Asked(byteCount), false, done)
    ensures machine.State().mem == old(machine.State()).mem
    ensures forall k | 0 <= k < done :: outBuff[k] == old(machine.State()).mem[Phys(old(machine.Table()), Addr(usrAddr, k))]
    ensures done == Asked(byteCount) ==> SameBut(old(machine.State()), machine.State())
  {
    hide Translate, ReadMem, Addr, SameMap, Reaches;
    ghost var c0 := machine.State();
    SameMapReflexive(c0.mmu);
    done := 0;
    while done < byteCount
      invariant 0 <= done <= Asked(byteCount) && SameBut(c0, machine.State()) && machine.State().mem == c0.mem
      invariant AllReach(c0.mmu, usrAddr, done, false)
      invariant forall k | 0 <= k < done :: outBuff[k] == c0.mem[Phys(c0.mmu, Addr(usrAddr, k))]
    {
      var addr := Wrap(usrAddr as int + done);
      AddrIs(usrAddr, done);
      ReadByte(machine.State(), c0, addr);
      var s, value := machine.ReadMem(addr, 1);
      if s != NoException {
        return;
      }
      outBuff[done] := value % 0x100;
      done := done + 1;
    }
  }

  lemma SameMapReflexive(mmu: Mmu)
    ensures SameMap(mmu, mmu)
  {
  }

  /** A buffer that can be written completely is read back unchanged, across whatever frames. */
  method RoundTrip(machine: Machine, buff: seq<byte>, usrAddr: int32, outBuff: array<byte>) returns (ok: bool)
    requires machine.Valid() && Sound(machine.State()) && OneToOne(machine.Table())
    requires |buff| == outBuff.Length < 0x8000_0000
    requires outBuff != machine.mainMemory && outBuff as object != machine.registers
    modifies machine.registers, machine.mainMemory, machine.tlb, machine.pageTable, outBuff
    ensures ok <==> AllReach(old(machine.Table()), usrAddr, |buff|, true)
    ensures ok ==> outBuff[..] == buff
  {
    hide Translate, Addr, SameMap, Reaches, OneToOne;
    ghost var m0 := machine.Table();
    var written := WriteBuffToUsr(machine, buff, usrAddr, |buff|);
    if written < |buff| {
      return false;
    }
    forall k | 0 <= k < |buff|
      ensures Reaches(machine.Table(), Addr(usrAddr, k), false)
      ensures Phys(machine.Table(), Addr(usrAddr, k)) == Phys(m0, Addr(usrAddr, k))
    {
      assert Reaches(m0, Addr(usrAddr, k), false);
      PhysSame(m0, machine.Table(), Addr(usrAddr, k), false);
    }
    var got := ReadBuffFromUsr(machine, usrAddr, outBuff, |buff|);
    return true;
  }
}
