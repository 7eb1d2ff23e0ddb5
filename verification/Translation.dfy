/**
 * machine/translate.cc: from virtual to physical addresses, by a page table or by a
 * translation buffer, and the bytes read and written there.
 */
module Translations {
  import opened Bytes
  import opened Words
  import opened Shifts
  import opened Instructions

  const PAGE_SIZE := 128
  const NUM_PHYS_PAGES := 128
  const MEMORY_SIZE := NUM_PHYS_PAGES * PAGE_SIZE
  const TLB_SIZE := 4

  datatype Entry = Entry(virtualPage: int32, physicalPage: int32, valid: bool, readOnly: bool, use: bool, dirty: bool)

  /** The machine has one of the two. */
  datatype Mmu = PageTable(entries: seq<Entry>) | Tlb(entries: seq<Entry>)

  type Memory = m: seq<byte> | |m| == MEMORY_SIZE witness seq<byte>(MEMORY_SIZE, i => 0)

  function Vpn(addr: int32): (p: nat)
  {
    Unsigned(addr) / PAGE_SIZE
  }

  function Offset(addr: int32): (o: nat)
    ensures o < PAGE_SIZE
  {
    Unsigned(addr) % PAGE_SIZE
  }

  predicate Misaligned(addr: int32, size: Size)
  {
    (size == 4 && addr % 4 != 0) || (size == 2 && addr % 2 != 0)
  }

  datatype Found = Missing(e: Exception) | Hit(i: nat)

  /** The first valid buffer entry for the page, from position i on. */
  function Search(entries: seq<Entry>, vpn: nat, i: nat): (f: Found)
    requires i <= |entries|
    ensures f.Hit? ==> i <= f.i < |entries| && entries[f.i].valid && entries[f.i].virtualPage == vpn
    ensures f.Missing? ==> f.e == PageFault && forall k | i <= k < |entries| :: !(entries[k].valid && entries[k].virtualPage == vpn)
    decreases |entries| - i
  {
    if i == |entries| then Missing(PageFault)
    else if entries[i].valid && entries[i].virtualPage == vpn then Hit(i)
    else Search(entries, vpn, i + 1)
  }

  function Lookup(mmu: Mmu, vpn: nat): (f: Found)
    ensures f.Hit? ==> f.i < |mmu.entries|
  {
    match mmu
    case PageTable(entries) =>
      if vpn >= |entries| then Missing(AddressError)
      else if !entries[vpn].valid then Missing(PageFault)
      else Hit(vpn)
    case Tlb(entries) => Search(entries, vpn, 0)
  }

  datatype Translation = Fault(e: Exception) | Physical(addr: nat, entry: nat)

  /** Machine::Translate, up to the use and dirty bits; a negative frame number is a large unsigned one. */
  function Translate(mmu: Mmu, addr: int32, size: Size, writing: bool): (t: Translation)
    ensures t.Physical? ==> t.entry < |mmu.entries|
  {
    if Misaligned(addr, size) then Fault(AddressError)
    else
      match Lookup(mmu, Vpn(addr))
      case Missing(e) => Fault(e)
      case Hit(i) =>
        var entry := mmu.entries[i];
        if entry.readOnly && writing then Fault(ReadOnly)
        else if Unsigned(entry.physicalPage) >= NUM_PHYS_PAGES then Fault(BusError)
        else Physical(Unsigned(entry.physicalPage) * PAGE_SIZE + Offset(addr), i)
  }

  function Touched(entry: Entry, writing: bool): (e: Entry)
  {
    entry.(use := true, dirty := entry.dirty || writing)
  }

  function Touch(mmu: Mmu, i: nat, writing: bool): (m: Mmu)
    requires i < |mmu.entries|
    ensures |m.entries| == |mmu.entries|
  {
    mmu.(entries := mmu.entries[i := Touched(mmu.entries[i], writing)])
  }

  /** The page tables agree but for the use and dirty bits. */
  ghost predicate SameMap(m: Mmu, n: Mmu)
  {
    && m.PageTable? == n.PageTable? && |m.entries| == |n.entries|
    && forall i | 0 <= i < |m.entries| :: SameEntry(m.entries[i], n.entries[i])
  }

  predicate SameEntry(e: Entry, f: Entry)
  {
    e.virtualPage == f.virtualPage && e.physicalPage == f.physicalPage && e.valid == f.valid && e.readOnly == f.readOnly
  }

  /** The frame is mapped by some valid entry. */
  ghost predicate Mapped(mmu: Mmu, frame: nat)
  {
    exists i | 0 <= i < |mmu.entries| :: mmu.entries[i].valid && mmu.entries[i].physicalPage == frame
  }

  // ----- what a translation gives -----

  /** The access stays inside one mapped frame, inside memory, and is allowed: the assertion of Translate holds. */
  lemma InsideFrame(mmu: Mmu, addr: int32, size: Size, writing: bool)
    requires Translate(mmu, addr, size, writing).Physical?
    ensures var t := Translate(mmu, addr, size, writing);
            var entry := mmu.entries[t.entry];
            && entry.valid && !(writing && entry.readOnly)
            && 0 <= entry.physicalPage < NUM_PHYS_PAGES
            && entry.physicalPage * PAGE_SIZE <= t.addr
            && t.addr + size <= entry.physicalPage * PAGE_SIZE + PAGE_SIZE <= MEMORY_SIZE
            && t.addr % PAGE_SIZE == Offset(addr)
            && Mapped(mmu, t.addr / PAGE_SIZE) && (t.addr + size - 1) / PAGE_SIZE == t.addr / PAGE_SIZE
  {
    hide Search;
    var t := Translate(mmu, addr, size, writing);
    AlignedInside(addr, size);
    assert mmu.entries[t.entry].physicalPage == t.addr / PAGE_SIZE;
  }

  lemma AlignedInside(addr: int32, size: Size)
    requires !Misaligned(addr, size)
    ensures Offset(addr) + size <= PAGE_SIZE
  {
    SameLowBits(addr);
    LowBitsOfOffset(Unsigned(addr));
  }

  lemma SameLowBits(x: int32)
    ensures Unsigned(x) % 2 == x % 2 && Unsigned(x) % 4 == x % 4
    ensures Unsigned(x) % 0x100 == x % 0x100 && Unsigned(x) % 0x1_0000 == x % 0x1_0000
  {
    if x < 0 {
      SameRemainder(x, 2, 0x8000_0000);
      SameRemainder(x, 4, 0x4000_0000);
      SameRemainder(x, 0x100, 0x100_0000);
      SameRemainder(x, 0x1_0000, 0x1_0000);
    }
  }

  lemma LowBitsOfOffset(w: nat)
    ensures w % PAGE_SIZE % 2 == w % 2 && w % PAGE_SIZE % 4 == w % 4
  {
    var q, r := w / PAGE_SIZE, w % PAGE_SIZE;
    assert w == r + 4 * (32 * q) == r + 2 * (64 * q);
    SameRemainder(r, 4, 32 * q);
    SameRemainder(r, 2, 64 * q);
  }

  /** What an aligned access to the unsigned address w gives through entry i. */
  ghost predicate Through(t: Translation, entry: Entry, i: nat, w: nat, writing: bool)
  {
    if writing && entry.readOnly then t == Fault(ReadOnly)
    else if !(0 <= entry.physicalPage < 128) then t == Fault(BusError)
    else t == Physical(entry.physicalPage * 128 + w % 128, i)
  }

  /**
   * A page table translates exactly the aligned addresses of its valid pages that are in memory and may be
   * written, if that is wanted; otherwise the first of these that fails decides the exception.
   */
  lemma TableTranslates(entries: seq<Entry>, addr: int32, size: Size, writing: bool)
    ensures var t := Translate(PageTable(entries), addr, size, writing);
            var w: nat := if addr < 0 then addr + 0x1_0000_0000 else addr;
            if addr % size != 0 || w / 128 >= |entries| then t == Fault(AddressError)
            else if !entries[w / 128].valid then t == Fault(PageFault)
            else Through(t, entries[w / 128], w / 128, w, writing)
  {
    MisalignedIff(addr, size);
    hide Misaligned;
  }

  /** i is the first valid entry of the buffer for the page. */
  ghost predicate FirstFor(entries: seq<Entry>, page: nat, i: nat)
  {
    && i < |entries| && entries[i].valid && entries[i].virtualPage == page
    && forall k | 0 <= k < i :: !(entries[k].valid && entries[k].virtualPage == page)
  }

  /** A translation buffer does the same through its first valid entry for the page, and misses without one. */
  lemma BufferTranslates(entries: seq<Entry>, addr: int32, size: Size, writing: bool)
    ensures var t := Translate(Tlb(entries), addr, size, writing);
            var w: nat := if addr < 0 then addr + 0x1_0000_0000 else addr;
            if addr % size != 0 then t == Fault(AddressError)
            else if forall k | 0 <= k < |entries| :: !(entries[k].valid && entries[k].virtualPage == w / 128) then t == Fault(PageFault)
            else exists i: nat :: FirstFor(entries, w / 128, i) && Through(t, entries[i], i, w, writing)
  {
    MisalignedIff(addr, size);
    hide Misaligned, Search;
    SearchIsFirst(entries, Vpn(addr), 0);
    var f := Search(entries, Vpn(addr), 0);
    if f.Hit? {
      assert FirstFor(entries, Vpn(addr), f.i);
    }
  }

  lemma {:induction false} SearchIsFirst(entries: seq<Entry>, vpn: nat, i: nat)
    requires i <= |entries|
    ensures var f := Search(entries, vpn, i);
            f.Hit? ==> forall k | i <= k < f.i :: !(entries[k].valid && entries[k].virtualPage == vpn)
    decreases |entries| - i
  {
    if i < |entries| && !(entries[i].valid && entries[i].virtualPage == vpn) {
      SearchIsFirst(entries, vpn, i + 1);
    }
  }

  lemma MisalignedIff(addr: int32, size: Size)
    ensures Misaligned(addr, size) <==> addr % size != 0
  {
  }

  /** Setting the use and dirty bits changes no translation. */
  lemma SameTranslation(m: Mmu, n: Mmu, addr: int32, size: Size, writing: bool)
    requires SameMap(m, n)
    ensures Translate(m, addr, size, writing) == Translate(n, addr, size, writing)
  {
    if m.Tlb? {
      SameSearch(m.entries, n.entries, Vpn(addr), 0);
    }
  }

  lemma {:induction false} SameSearch(m: seq<Entry>, n: seq<Entry>, vpn: nat, i: nat)
    requires |m| == |n| && i <= |m| && forall k | 0 <= k < |m| :: SameEntry(m[k], n[k])
    ensures Search(m, vpn, i) == Search(n, vpn, i)
    decreases |m| - i
  {
    if i < |m| {
      SameSearch(m, n, vpn, i + 1);
    }
  }

  lemma TouchKeepsMap(mmu: Mmu, i: nat, writing: bool)
    requires i < |mmu.entries|
    ensures SameMap(mmu, Touch(mmu, i, writing))
  {
  }

  /** Every valid buffer entry is a valid entry of the page table. */
  ghost predicate Coherent(tlb: seq<Entry>, table: seq<Entry>)
  {
    forall i | 0 <= i < |tlb| && tlb[i].valid ::
      0 <= tlb[i].virtualPage < |table| && FromTable(tlb[i], table[tlb[i].virtualPage])
  }

  ghost predicate FromTable(e: Entry, f: Entry)
  {
    f.valid && e.physicalPage == f.physicalPage && e.readOnly == f.readOnly
  }

  /** With a coherent buffer, whatever is not a miss is what the page table gives. */
  lemma CoherentHit(tlb: seq<Entry>, table: seq<Entry>, addr: int32, size: Size, writing: bool)
    requires Coherent(tlb, table)
    ensures var t, p := Translate(Tlb(tlb), addr, size, writing), Translate(PageTable(table), addr, size, writing);
            || t == Fault(PageFault)
            || (t.Fault? && t == p)
            || (t.Physical? && p == Physical(t.addr, Vpn(addr)))
  {
    var f := Search(tlb, Vpn(addr), 0);
    if f.Hit? {
      assert FromTable(tlb[f.i], table[tlb[f.i].virtualPage]);
    }
  }

  // ----- the bytes -----

  /** ReadMem's value: a byte is a signed char, a half word unsigned, a word an int. */
  function Fetch(mem: Memory, addr: nat, size: Size): (x: int32)
    requires addr + size <= MEMORY_SIZE
  {
    match size
    case 1 => AsChar(mem[addr])
    case 2 => Half(mem[addr], mem[addr + 1])
    case _ => DecodeInt(mem[addr..addr + 4])
  }

  function Half(lo: byte, hi: byte): (x: int32)
  {
    var l: int, h: int := lo, hi;
    l + 0x100 * h
  }

  function AsChar(b: byte): (x: int32)
    ensures x % 0x100 == b
  {
    if b < 0x80 then b else b - 0x100
  }

  /** WriteMem's effect: the low bytes of the value. */
  function Put(mem: Memory, addr: nat, size: Size, x: int32): (m: Memory)
    requires addr + size <= MEMORY_SIZE
  {
    mem[..addr] + EncodeInt(x)[..size] + mem[addr + size..]
  }

  /** A write changes its own bytes and no others. */
  lemma PutFrame(mem: Memory, addr: nat, size: Size, x: int32, k: nat)
    requires addr + size <= MEMORY_SIZE && k < MEMORY_SIZE
    ensures Put(mem, addr, size, x)[k] == if addr <= k < addr + size then EncodeInt(x)[k - addr] else mem[k]
  {
  }

  /** A value written is read back, as far as its size goes. */
  lemma FetchPut(mem: Memory, addr: nat, size: Size, x: int32)
    requires addr + size <= MEMORY_SIZE
    ensures var y := Fetch(Put(mem, addr, size, x), addr, size);
            match size
            case 1 => y % 0x100 == x % 0x100 && -0x80 <= y < 0x80
            case 2 => y == x % 0x1_0000
            case _ => y == x
  {
    hide Put, EncodeInt;
    var m := Put(mem, addr, size, x);
    forall k | addr <= k < addr + size
      ensures m[k] == EncodeInt(x)[k - addr]
    {
      PutFrame(mem, addr, size, x, k);
    }
    LowBytes(x);
    if size == 4 {
      assert m[addr..addr + 4] == EncodeInt(x);
      IntRoundTrip(x);
    }
  }

  lemma LowBytes(x: int32)
    ensures EncodeInt(x)[0] == x % 0x100
    ensures Half(EncodeInt(x)[0], EncodeInt(x)[1]) == x % 0x1_0000
  {
    SameLowBits(x);
    TwoBytes(Unsigned(x));
  }

  lemma TwoBytes(w: nat)
    ensures w % 0x1_0000 == w % 0x100 + 0x100 * (w / 0x100 % 0x100)
  {
    var q := w / 0x100;
    UniqueQuotient(w, 0x1_0000, q / 0x100, w % 0x100 + 0x100 * (q % 0x100));
  }
}
