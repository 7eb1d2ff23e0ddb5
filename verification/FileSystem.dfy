/**
 * filesys/filesys.cc: formatting the disk, Create, Open and Remove, written over
 * the classes of the other modules and proved against Volumes.
 */
module FileSystems {
  import opened Bytes
  import opened BitMaps
  import opened Headers
  import opened OpenFiles
  import opened Directories
  import opened FileHeaders
  import opened Volumes
  import opened VolumeWrites

  const BLANK_ENTRY := Entry(false, 0, [0, 0, 0, 0, 0, 0, 0, 0, 0, 0])

  // ----- a formatted disk -----

  /** The headers that the formatter writes. */
  ghost predicate SystemPlaced(m: Header, t: Header)
  {
    && m.numBytes == FREE_MAP_FILE_SIZE && m.numSectors == 1 && m.dataSectors[0] == 2
    && t.numBytes == DIRECTORY_FILE_SIZE && t.numSectors == 2 && t.dataSectors[0] == 3 && t.dataSectors[1] == 4
  }

  lemma PlacedApart(m: Header, t: Header)
    requires SystemPlaced(m, t)
    ensures Mapped(m) && Mapped(t) && TablesApart(m, t)
  {
  }

  lemma FormattedView(d: Image, d': Image, t: seq<Entry>, bits: seq<bool>)
    requires Bootable(d) && SystemPlaced(MapHeader(d), DirHeader(d)) && SystemWritten(d, d', t, bits)
    requires |bits| == NUM_SECTORS && |t| == NUM_DIR_ENTRIES
    requires forall s | 0 <= s < NUM_SECTORS :: bits[s] <==> s < RESERVED
    requires ClearCount(bits) == NUM_SECTORS - RESERVED
    requires forall e | 0 <= e < NUM_DIR_ENTRIES :: !t[e].inUse
    ensures Formatted(ViewOf(d'))
  {
  }

  /** The view of a freshly formatted disk. */
  ghost predicate Formatted(v: View)
  {
    && WellMapped(v)
    && v.mapHdr.dataSectors[0] == 2 && v.dirHdr.dataSectors[0] == 3 && v.dirHdr.dataSectors[1] == 4
    && (forall s | 0 <= s < NUM_SECTORS :: v.bits[s] <==> s < RESERVED)
    && ClearCount(v.bits) == NUM_SECTORS - RESERVED
    && (forall e | 0 <= e < NUM_DIR_ENTRIES :: !v.table[e].inUse)
  }

  lemma {:induction false} NoFilesNoSpace(v: View, n: nat)
    requires Formatted(v) && n <= NUM_DIR_ENTRIES
    ensures FileSpace(v, n) == 0
  {
    if n > 0 {
      NoFilesNoSpace(v, n - 1);
    }
  }

  lemma FormattedPart(v: View, p: Part)
    requires Formatted(v) && Live(v, p)
    ensures match At(v, p) {
      case 0 => p == FreeMapHdr
      case 1 => p == DirectoryHdr
      case 2 => p == FreeMapData(0)
      case 3 => p == DirectoryData(0)
      case 4 => p == DirectoryData(1)
      case _ => false
    }
  {
    assert Used(v.mapHdr) == 1 && Used(v.dirHdr) == 2;
  }

  lemma FormattedValid(v: View)
    requires Formatted(v)
    ensures ValidView(v)
  {
    assert Used(v.mapHdr) == 1 && Used(v.dirHdr) == 2;
    forall p, q | Live(v, p) && Live(v, q) && At(v, p) == At(v, q)
      ensures p == q
    {
      FormattedPart(v, p);
      FormattedPart(v, q);
    }
    forall s | 0 <= s < NUM_SECTORS
      ensures v.bits[s] <==> Owned(v, s)
    {
      if s < RESERVED {
        assert At(v, FreeMapHdr) == 0 && At(v, DirectoryHdr) == 1 && At(v, FreeMapData(0)) == 2;
        assert At(v, DirectoryData(0)) == 3 && At(v, DirectoryData(1)) == 4;
      } else if Owned(v, s) {
        var p :| Live(v, p) && At(v, p) == s;
        FormattedPart(v, p);
      }
    }
    NoFilesNoSpace(v, NUM_DIR_ENTRIES);
  }

  lemma {:induction false} AllClear(n: nat)
    ensures ClearCount(seq(n, i => false)) == n
  {
    if n > 0 {
      assert seq(n, i => false)[..n - 1] == seq(n - 1, i => false);
      AllClear(n - 1);
    }
  }

  /** The ASSERT of FileHeader::Deallocate: every sector of a file is marked. */
  lemma FileMarked(v: View, e: nat)
    requires ValidView(v) && InUse(v, e)
    ensures v.bits[v.table[e].sector]
    ensures forall i | 0 <= i < Used(v.hdrs[e]) :: v.bits[v.hdrs[e].dataSectors[i]] && v.hdrs[e].dataSectors[i] != v.table[e].sector
  {
    SectorsOwned(v, e, 0);
    forall i | 0 <= i < Used(v.hdrs[e])
      ensures v.bits[v.hdrs[e].dataSectors[i]] && v.hdrs[e].dataSectors[i] != v.table[e].sector
    {
      SectorsOwned(v, e, i + 1);
      SectorsDistinct(v, e, 0, i + 1);
    }
  }

  /** The header that the view shows for a file is the one in its header sector. */
  lemma HeaderAt(d: Image, e: nat)
    requires ValidImage(d) && InUse(ViewOf(d), e)
    ensures 0 <= ViewOf(d).table[e].sector < NUM_SECTORS
    ensures ViewOf(d).hdrs[e] == DecodeHeader(d[ViewOf(d).table[e].sector]) && Mapped(ViewOf(d).hdrs[e])
  {
  }

  /** Find answers -1 for the absent names only. */
  lemma FoundIffPresent(v: View, key: CString)
    requires WellMapped(v)
    ensures SectorOfName(v.table, key) == -1 <==> IndexOf(v.table, key) == -1
  {
  }

  /** With exactly the bits below `from` marked, first-fit takes the next ones. */
  lemma {:induction false} FirstFit(bits: seq<bool>, bits': seq<bool>, xs: seq<int>, from: nat)
    requires Allotted(bits, bits', xs)
    requires forall s | 0 <= s < |bits| :: bits[s] <==> s < from
    ensures forall i | 0 <= i < |xs| :: xs[i] == from + i
    ensures forall s | 0 <= s < |bits| :: bits'[s] <==> s < from + |xs|
    ensures ClearCount(bits') == ClearCount(bits) - |xs|
  {
    AllottedCount(bits, bits', xs);
    var i := 0;
    while i < |xs|
      invariant 0 <= i <= |xs| && forall j | 0 <= j < i :: xs[j] == from + j
    {
      assert if i == 0 then !bits[xs[i]] else xs[i - 1] < xs[i];
      if xs[i] > from + i {
        assert bits'[from + i] && !bits[from + i] && from + i in xs;
        var k :| 0 <= k < |xs| && xs[k] == from + i;
        assert k > i || k < i;
      }
      i := i + 1;
    }
  }

  class FileSystem {
    const disk: SynchDisk
    var freeMapFile: OpenFile
    var directoryFile: OpenFile

    /** The two files are left open, with the headers that the boot sectors hold. */
    ghost predicate Opened()
      reads this, disk.sectors
    {
      && disk.Valid()
      && freeMapFile.disk == disk && directoryFile.disk == disk
      && freeMapFile.hdr == MapHeader(disk.Contents()) && directoryFile.hdr == DirHeader(disk.Contents())
    }

    ghost predicate Valid()
      reads this, disk.sectors
    {
      Opened() && ValidImage(disk.Contents())
    }

    ghost function View(): (v: View)
      requires disk.Valid() && Bootable(disk.Contents())
      reads disk.sectors
      ensures Sized(v)
    {
      ViewOf(disk.Contents())
    }

    /** `FileSystem(format)`; the memory arguments are what fresh objects happen to hold. */
    constructor (disk: SynchDisk, format: bool, mapMemory: Header, dirMemory: Header, tableMemory: seq<Entry>)
      requires disk.Valid() && |tableMemory| == NUM_DIR_ENTRIES
      modifies disk.sectors
      ensures this.disk == disk && Opened() && (format || ValidImage(old(disk.Contents())) ==> Valid())
      ensures format ==> Formatted(View())
      ensures !format ==> disk.Contents() == old(disk.Contents())
    {
      var freeMap := new BitMap(NUM_SECTORS);
      var directory := new Directory(NUM_DIR_ENTRIES, tableMemory);
      if format {
        WriteSystemHeaders(disk, freeMap, mapMemory, dirMemory);
      }
      this.disk := disk;
      freeMapFile := new OpenFile(disk, FREE_MAP_SECTOR);
      directoryFile := new OpenFile(disk, DIRECTORY_SECTOR);
      new;
      if format {
        WriteSystemFiles(freeMap, directory);
      }
    }

    /** The last steps of formatting: write the free map and the directory through their files. */
    method WriteSystemFiles(freeMap: BitMap, directory: Directory)
      requires Opened() && Apart(disk.Contents()) && SystemPlaced(MapHeader(disk.Contents()), DirHeader(disk.Contents()))
      requires freeMap.Valid() && freeMap.numBits == NUM_SECTORS
      requires directory.Valid() && directory.tableSize == NUM_DIR_ENTRIES
      requires forall s | 0 <= s < NUM_SECTORS :: freeMap.Contents()[s] <==> s < RESERVED
      requires ClearCount(freeMap.Contents()) == NUM_SECTORS - RESERVED
      requires forall e | 0 <= e < NUM_DIR_ENTRIES :: !directory.Contents()[e].inUse
      modifies disk.sectors
      ensures Valid() && Formatted(View())
    {
      ghost var d := disk.Contents();
      freeMap.WriteBack(freeMapFile);
      ghost var d1 := disk.Contents();
      directory.WriteBack(directoryFile);
      MapThenDirectory(d, d1, disk.Contents(), directory.Contents(), freeMap.words[..]);
      FormattedView(d, disk.Contents(), directory.Contents(), freeMap.Contents());
      FormattedValid(View());
    }

    /** The first steps of formatting: reserve the sectors, then write the two headers. */
    static method WriteSystemHeaders(disk: SynchDisk, freeMap: BitMap, mapMemory: Header, dirMemory: Header)
      requires disk.Valid() && freeMap.Valid() && freeMap.numBits == NUM_SECTORS
      requires freeMap.Contents() == seq(NUM_SECTORS, i => false)
      requires freeMap.words as object != disk.sectors
      modifies disk.sectors, freeMap.words
      ensures Apart(disk.Contents()) && SystemPlaced(MapHeader(disk.Contents()), DirHeader(disk.Contents()))
      ensures forall s | 0 <= s < NUM_SECTORS :: freeMap.Contents()[s] <==> s < RESERVED
      ensures ClearCount(freeMap.Contents()) == NUM_SECTORS - RESERVED
    {
      var mapHdr := new FileHeader(mapMemory);
      var dirHdr := new FileHeader(dirMemory);
      ReserveSectors(freeMap, mapHdr, dirHdr);
      HeaderRoundTrip(mapHdr.Contents());
      HeaderRoundTrip(dirHdr.Contents());
      mapHdr.WriteBack(disk, FREE_MAP_SECTOR);
      dirHdr.WriteBack(disk, DIRECTORY_SECTOR);
      PlacedApart(mapHdr.Contents(), dirHdr.Contents());
    }

    static method ReserveSectors(freeMap: BitMap, mapHdr: FileHeader, dirHdr: FileHeader)
      requires freeMap.Valid() && freeMap.numBits == NUM_SECTORS && mapHdr.Valid() && dirHdr.Valid()
      requires freeMap.Contents() == seq(NUM_SECTORS, i => false)
      requires mapHdr != dirHdr && mapHdr.dataSectors != dirHdr.dataSectors
      requires freeMap.words as object != mapHdr.dataSectors && freeMap.words as object != dirHdr.dataSectors
      modifies freeMap.words, mapHdr, mapHdr.dataSectors, dirHdr, dirHdr.dataSectors
      ensures SystemPlaced(mapHdr.Contents(), dirHdr.Contents())
      ensures forall s | 0 <= s < NUM_SECTORS :: freeMap.Contents()[s] <==> s < RESERVED
      ensures ClearCount(freeMap.Contents()) == NUM_SECTORS - RESERVED
    {
      hide Bits, ClearCount, Allotted;
      AllClear(NUM_SECTORS);
      ghost var b0 := freeMap.Contents();
      freeMap.Mark(FREE_MAP_SECTOR);
      MarkCount(b0, FREE_MAP_SECTOR);
      ghost var b1 := freeMap.Contents();
      freeMap.Mark(DIRECTORY_SECTOR);
      MarkCount(b1, DIRECTORY_SECTOR);
      ghost var b2 := freeMap.Contents();
      var room := mapHdr.Allocate(freeMap, FREE_MAP_FILE_SIZE);
      assert room == Taken;                 // the ASSERT of the source
      ghost var b3 := freeMap.Contents();
      FirstFit(b2, b3, mapHdr.dataSectors[..1], 2);
      room := dirHdr.Allocate(freeMap, DIRECTORY_FILE_SIZE);
      assert room == Taken;                 // the ASSERT of the source
      FirstFit(b3, freeMap.Contents(), dirHdr.dataSectors[..2], 3);
    }

    method FetchDirectory() returns (directory: Directory)
      requires Opened() && Bootable(disk.Contents())
      ensures fresh(directory) && fresh(directory.table) && directory.Valid() && directory.tableSize == NUM_DIR_ENTRIES
      ensures directory.Contents() == View().table
    {
      directory := new Directory(NUM_DIR_ENTRIES, seq(NUM_DIR_ENTRIES, i => BLANK_ENTRY));
      directory.FetchFrom(directoryFile);
    }

    method FetchFreeMap() returns (freeMap: BitMap)
      requires Opened() && Bootable(disk.Contents())
      ensures fresh(freeMap) && fresh(freeMap.words) && freeMap.Valid() && freeMap.numBits == NUM_SECTORS
      ensures freeMap.Contents() == View().bits
    {
      freeMap := new BitMap(NUM_SECTORS);
      freeMap.FetchFrom(freeMapFile);
    }

    /** Created and Refused are the true and false of the source; after a header overrun nothing is promised. */
    method Create(name: CString, initialSize: int32, memory: Header) returns (r: CreateResult)
      requires Valid()
      modifies disk.sectors
      ensures r == CreateOutcome(old(View()), Key(name), initialSize)
      ensures r != HeaderOverrun ==> Valid() && CreateStep(old(disk.Contents()), disk.Contents(), name, initialSize)
    {
      hide ViewOf, Bits, IndexOf, FreeSlot, Added;
      ghost var v := View();
      FoundIffPresent(v, Key(name));
      FirstClearIffCount(v.bits);
      var directory := FetchDirectory();
      var there := directory.Find(name);
      if there != -1 {
        return Refused;
      }
      var freeMap := FetchFreeMap();
      var sector := freeMap.Find();
      if sector == -1 {
        return Refused;
      }
      var added := directory.Add(name, sector);
      if !added {
        return Refused;
      }
      r := AllocateAndFlush(name, initialSize, memory, sector, directory, freeMap);
    }

    /** The innermost branch of Create. */
    method AllocateAndFlush(name: CString, initialSize: int32, memory: Header,
                            sector: int32, directory: Directory, freeMap: BitMap) returns (r: CreateResult)
      requires Valid() && directory.Valid() && freeMap.Valid()
      requires directory.tableSize == NUM_DIR_ENTRIES && freeMap.numBits == NUM_SECTORS
      requires IndexOf(View().table, Key(name)) == -1 && FreeSlot(View().table) != -1
      requires sector == FirstClear(View().bits) != -1
      requires directory.Contents() == Added(View().table, name, sector)
      requires freeMap.Contents() == View().bits[sector := true]
      modifies disk.sectors, freeMap.words
      ensures Valid()
      ensures r == CreateOutcome(old(View()), Key(name), initialSize)
      ensures r == Refused ==> disk.Contents() == old(disk.Contents())
      ensures r == Created ==> CreatedView(old(View()), View(), name, initialSize)
      ensures r == Created ==> Undisturbed(old(View()), old(disk.Contents()), disk.Contents())
    {
      ghost var v := View();
      FirstClearIffCount(v.bits);
      MarkCount(v.bits, sector);
      var hdr := new FileHeader(memory);
      var room := hdr.Allocate(freeMap, initialSize);
      if room == NoRoom {
        return Refused;
      } else if room == Overrun {
        return HeaderOverrun;
      }
      Flush(hdr, sector, directory, freeMap, name);
      return Created;
    }

    /** The three writes of a successful Create. */
    method Flush(hdr: FileHeader, sector: int32, directory: Directory, freeMap: BitMap, ghost name: CString)
      requires Valid() && hdr.Valid() && directory.Valid() && freeMap.Valid()
      requires directory.tableSize == NUM_DIR_ENTRIES && freeMap.numBits == NUM_SECTORS
      requires CreateOutcome(View(), Key(name), hdr.numBytes) == Created
      requires sector == FirstClear(View().bits) != -1
      requires hdr.numSectors == DivRoundUp(hdr.numBytes, SECTOR_SIZE)
      requires directory.Contents() == Added(View().table, name, sector)
      requires Allotted(View().bits[sector := true], freeMap.Contents(), hdr.Contents().dataSectors[..Used(hdr.Contents())])
      modifies disk.sectors
      ensures Valid()
      ensures CreatedView(old(View()), View(), name, hdr.numBytes)
      ensures Undisturbed(old(View()), old(disk.Contents()), disk.Contents())
    {
      ghost var d, v, h := disk.Contents(), View(), hdr.Contents();
      HeaderWritten(d, sector, h);
      hdr.WriteBack(disk, sector);
      ghost var d1 := disk.Contents();
      directory.WriteBack(directoryFile);
      ghost var d2 := disk.Contents();
      freeMap.WriteBack(freeMapFile);
      DirectoryThenMap(d1, d2, disk.Contents(), directory.Contents(), freeMap.words[..]);
      CreatedOnDisk(d, d1, disk.Contents(), name, hdr.numBytes, h, freeMap.Contents());
      CreateKeepsValid(v, View(), name, hdr.numBytes);
    }

    method Open(name: CString) returns (file: OpenFile?)
      requires Valid()
      ensures file == null <==> IndexOf(View().table, Key(name)) == -1
      ensures file != null ==> fresh(file) && file.disk == disk && file.seekPosition == 0 && file.Valid()
      ensures file != null ==> file.hdr == View().hdrs[IndexOf(View().table, Key(name))]
    {
      ghost var t := View().table;
      file := null;
      var directory := FetchDirectory();
      var sector := directory.Find(name);
      if IndexOf(t, Key(name)) != -1 {
        HeaderAt(disk.Contents(), IndexOf(t, Key(name)));
      }
      if sector >= 0 {
        file := new OpenFile(disk, sector);
      }
    }

    method Remove(name: CString, memory: Header) returns (success: bool)
      requires Valid()
      modifies disk.sectors
      ensures Valid()
      ensures success <==> IndexOf(old(View()).table, Key(name)) != -1
      ensures RemoveStep(old(disk.Contents()), disk.Contents(), name)
    {
      ghost var e := IndexOf(View().table, Key(name));
      var directory := FetchDirectory();
      var sector := directory.Find(name);
      if e != -1 {
        HeaderAt(disk.Contents(), e);
      }
      if sector == -1 {
        return false;
      }
      var freeMap := FreeFile(sector, e, memory);
      var removed := directory.Remove(name);
      FlushRemoval(directory, freeMap, name);
      return true;
    }

    /** The free map after the sectors of a file have left it. */
    method FreeFile(sector: int, ghost e: nat, memory: Header) returns (freeMap: BitMap)
      requires Valid() && InUse(View(), e) && sector == View().table[e].sector
      ensures fresh(freeMap) && fresh(freeMap.words) && freeMap.Valid() && freeMap.numBits == NUM_SECTORS
      ensures forall s | 0 <= s < NUM_SECTORS :: freeMap.Contents()[s] <==>
        View().bits[s] && s != View().table[e].sector && s !in View().hdrs[e].dataSectors[..Used(View().hdrs[e])]
    {
      hide ViewOf, Bits;
      ghost var v := View();
      HeaderAt(disk.Contents(), e);
      FileMarked(v, e);
      var fileHdr := new FileHeader(memory);
      fileHdr.FetchFrom(disk, sector);
      freeMap := FetchFreeMap();
      fileHdr.Deallocate(freeMap);
      freeMap.Clear(sector);
    }

    /** The two writes of a successful Remove. */
    method FlushRemoval(directory: Directory, freeMap: BitMap, ghost name: CString)
      requires Valid() && directory.Valid() && freeMap.Valid()
      requires directory.tableSize == NUM_DIR_ENTRIES && freeMap.numBits == NUM_SECTORS
      requires IndexOf(View().table, Key(name)) != -1
      requires directory.Contents() == Removed(View().table, Key(name))
      requires var e := IndexOf(View().table, Key(name));
        forall s | 0 <= s < NUM_SECTORS :: freeMap.Contents()[s] <==>
          View().bits[s] && s != View().table[e].sector && s !in View().hdrs[e].dataSectors[..Used(View().hdrs[e])]
      modifies disk.sectors
      ensures Valid()
      ensures RemovedView(old(View()), View(), Key(name))
      ensures Undisturbed(old(View()), old(disk.Contents()), disk.Contents())
    {
      ghost var d, v := disk.Contents(), View();
      ViewApart(v);
      freeMap.WriteBack(freeMapFile);
      ghost var d1 := disk.Contents();
      directory.WriteBack(directoryFile);
      MapThenDirectory(d, d1, disk.Contents(), directory.Contents(), freeMap.words[..]);
      RemovedOnDisk(d, disk.Contents(), Key(name), freeMap.Contents());
      RemoveKeepsValid(v, View(), Key(name));
    }
  }
}
