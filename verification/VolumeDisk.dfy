/**
 * The invariant of Volumes on real sectors: the order in which Create, Remove
 * and the formatter write headers, directory and free map.
 */
module VolumeWrites {
  import opened Bytes
  import opened BitMaps
  import opened Headers
  import opened OpenFiles
  import opened Directories
  import opened FileHeaders
  import opened Volumes

  ghost predicate InTable(h: Header, s: int)
    requires Mapped(h)
  {
    exists i | 0 <= i < Used(h) :: h.dataSectors[i] == s
  }

  /** The boot headers and the data of the free map and of the directory do not overlap. */
  ghost predicate TablesApart(m: Header, t: Header)
    requires Mapped(m) && Mapped(t)
  {
    && (forall s | InTable(m, s) :: s != FREE_MAP_SECTOR && s != DIRECTORY_SECTOR && !InTable(t, s))
    && (forall s | InTable(t, s) :: s != FREE_MAP_SECTOR && s != DIRECTORY_SECTOR)
  }

  ghost predicate Apart(d: Image)
  {
    Bootable(d) && TablesApart(MapHeader(d), DirHeader(d))
  }

  ghost predicate SystemPart(p: Part)
  {
    !p.FileHdr? && !p.FileData?
  }

  /** Sector s holds nothing of the free map or the directory. */
  ghost predicate NotSystem(v: View, s: int)
    requires WellMapped(v)
  {
    s != FREE_MAP_SECTOR && s != DIRECTORY_SECTOR && !InTable(v.mapHdr, s) && !InTable(v.dirHdr, s)
  }

  lemma NoSystemPart(v: View, s: int)
    requires WellMapped(v)
    requires forall p | Live(v, p) && SystemPart(p) :: At(v, p) != s
    ensures NotSystem(v, s)
  {
    assert At(v, FreeMapHdr) != s && At(v, DirectoryHdr) != s;
    forall i | 0 <= i < Used(v.mapHdr)
      ensures v.mapHdr.dataSectors[i] != s
    {
      assert At(v, FreeMapData(i)) != s;
    }
    forall i | 0 <= i < Used(v.dirHdr)
      ensures v.dirHdr.dataSectors[i] != s
    {
      assert At(v, DirectoryData(i)) != s;
    }
  }

  /** A file part is in none of these sectors. */
  lemma FilePartApart(v: View, p: Part)
    requires ValidView(v) && Live(v, p) && !SystemPart(p)
    ensures NotSystem(v, At(v, p))
  {
    NoSystemPart(v, At(v, p));
  }

  /** Nor is an unmarked sector. */
  lemma ClearApart(v: View, s: int)
    requires ValidView(v) && 0 <= s < NUM_SECTORS && !v.bits[s]
    ensures NotSystem(v, s)
    ensures forall p | Live(v, p) :: At(v, p) != s
  {
    assert !Owned(v, s);
    NoSystemPart(v, s);
  }

  lemma ViewApart(v: View)
    requires ValidView(v)
    ensures TablesApart(v.mapHdr, v.dirHdr)
  {
    forall i | 0 <= i < Used(v.mapHdr)
      ensures v.mapHdr.dataSectors[i] != FREE_MAP_SECTOR && v.mapHdr.dataSectors[i] != DIRECTORY_SECTOR
    {
      assert At(v, FreeMapData(i)) != At(v, FreeMapHdr) && At(v, FreeMapData(i)) != At(v, DirectoryHdr);
    }
    forall i, j | 0 <= i < Used(v.mapHdr) && 0 <= j < Used(v.dirHdr)
      ensures v.mapHdr.dataSectors[i] != v.dirHdr.dataSectors[j]
    {
      assert At(v, DirectoryData(j)) != At(v, FreeMapData(i));
    }
    forall i | 0 <= i < Used(v.dirHdr)
      ensures v.dirHdr.dataSectors[i] != FREE_MAP_SECTOR && v.dirHdr.dataSectors[i] != DIRECTORY_SECTOR
    {
      assert At(v, DirectoryData(i)) != At(v, FreeMapHdr) && At(v, DirectoryData(i)) != At(v, DirectoryHdr);
    }
  }

  /** A write of a whole file touches its data sectors only. */
  lemma WrittenOutside(d: Image, d': Image, h: Header, data: seq<byte>, s: int)
    requires Mapped(h) && 0 < |data| <= Length(h) && Written(d, d', h, 0, data)
    requires 0 <= s < NUM_SECTORS && !InTable(h, s)
    ensures d'[s] == d[s]
  {
  }

  /** The boot sectors of two images agree. */
  ghost predicate SameBoot(d: Image, d': Image)
  {
    d'[FREE_MAP_SECTOR] == d[FREE_MAP_SECTOR] && d'[DIRECTORY_SECTOR] == d[DIRECTORY_SECTOR]
  }

  lemma TableWritten(d: Image, d': Image, t: seq<Entry>)
    requires Apart(d) && |t| == NUM_DIR_ENTRIES && Written(d, d', DirHeader(d), 0, EncodeTable(t))
    ensures SameBoot(d, d') && Apart(d') && TableOf(d') == t
    ensures FileBytes(d', MapHeader(d')) == FileBytes(d, MapHeader(d))
    ensures forall s | 0 <= s < NUM_SECTORS && !InTable(DirHeader(d), s) :: d'[s] == d[s]
  {
    var b := EncodeTable(t);
    forall s | 0 <= s < NUM_SECTORS && !InTable(DirHeader(d), s)
      ensures d'[s] == d[s]
    {
      WrittenOutside(d, d', DirHeader(d), b, s);
    }
    FileBytesFrame(d, d', MapHeader(d));
    assert FileBytes(d', DirHeader(d)) == b;
    TableRoundTrip(t);
  }

  lemma BitsWritten(d: Image, d': Image, ws: seq<word>)
    requires Apart(d) && |ws| == NUM_SECTORS / BITS_IN_WORD && Written(d, d', MapHeader(d), 0, EncodeWords(ws))
    ensures SameBoot(d, d') && Apart(d') && BitsIn(FileBytes(d', MapHeader(d'))) == Bits(ws, NUM_SECTORS)
    ensures TableOf(d') == TableOf(d)
    ensures forall s | 0 <= s < NUM_SECTORS && !InTable(MapHeader(d), s) :: d'[s] == d[s]
  {
    var b := EncodeWords(ws);
    forall s | 0 <= s < NUM_SECTORS && !InTable(MapHeader(d), s)
      ensures d'[s] == d[s]
    {
      WrittenOutside(d, d', MapHeader(d), b, s);
    }
    FileBytesFrame(d, d', DirHeader(d));
    assert FileBytes(d', MapHeader(d)) == b;
    WordsRoundTrip(ws);
  }

  /** The sectors of every file of v hold the same in both images. */
  ghost predicate Undisturbed(v: View, d: Image, d': Image)
    requires WellMapped(v)
  {
    forall p | Live(v, p) && !SystemPart(p) :: d'[At(v, p)] == d[At(v, p)]
  }

  lemma UndisturbedFile(v: View, d: Image, d': Image, e: nat)
    requires WellMapped(v) && Undisturbed(v, d, d') && InUse(v, e)
    ensures d'[v.table[e].sector] == d[v.table[e].sector]
    ensures FileBytes(d', v.hdrs[e]) == FileBytes(d, v.hdrs[e])
  {
    assert At(v, FileHdr(e)) == v.table[e].sector;
    forall i | 0 <= i < Used(v.hdrs[e])
      ensures d'[v.hdrs[e].dataSectors[i]] == d[v.hdrs[e].dataSectors[i]]
    {
      assert At(v, FileData(e, i)) == v.hdrs[e].dataSectors[i];
    }
    FileBytesFrame(d, d', v.hdrs[e]);
  }

  /** Writing the directory and the free map, in either order, disturbs no other sector. */
  ghost predicate SystemWritten(d: Image, d': Image, t: seq<Entry>, bits: seq<bool>)
    requires Bootable(d)
  {
    && SameBoot(d, d') && Bootable(d')
    && TableOf(d') == t && BitsIn(FileBytes(d', MapHeader(d'))) == bits
    && forall s | 0 <= s < NUM_SECTORS && !InTable(MapHeader(d), s) && !InTable(DirHeader(d), s) :: d'[s] == d[s]
  }

  lemma DirectoryThenMap(d: Image, d1: Image, d2: Image, t: seq<Entry>, ws: seq<word>)
    requires Apart(d) && |t| == NUM_DIR_ENTRIES && |ws| == NUM_SECTORS / BITS_IN_WORD
    requires Written(d, d1, DirHeader(d), 0, EncodeTable(t)) && Written(d1, d2, MapHeader(d), 0, EncodeWords(ws))
    ensures SystemWritten(d, d2, t, Bits(ws, NUM_SECTORS))
  {
    TableWritten(d, d1, t);
    BitsWritten(d1, d2, ws);
  }

  lemma MapThenDirectory(d: Image, d1: Image, d2: Image, t: seq<Entry>, ws: seq<word>)
    requires Apart(d) && |t| == NUM_DIR_ENTRIES && |ws| == NUM_SECTORS / BITS_IN_WORD
    requires Written(d, d1, MapHeader(d), 0, EncodeWords(ws)) && Written(d1, d2, DirHeader(d), 0, EncodeTable(t))
    ensures SystemWritten(d, d2, t, Bits(ws, NUM_SECTORS))
  {
    BitsWritten(d, d1, ws);
    TableWritten(d1, d2, t);
  }

  /** Writing a header into an unmarked sector changes nothing that v speaks of. */
  lemma HeaderWritten(d: Image, s: int, h: Header)
    requires ValidImage(d) && 0 <= s < NUM_SECTORS && !ViewOf(d).bits[s]
    ensures var d1 := d[s := EncodeHeader(h)];
      SameBoot(d, d1) && Apart(d1) && Undisturbed(ViewOf(d), d, d1) && NotSystem(ViewOf(d), s)
  {
    var v := ViewOf(d);
    ClearApart(v, s);
    ViewApart(v);
  }

  lemma SystemWrittenUndisturbed(v: View, d: Image, d': Image, t: seq<Entry>, bits: seq<bool>)
    requires ValidView(v) && Bootable(d) && v.mapHdr == MapHeader(d) && v.dirHdr == DirHeader(d)
    requires SystemWritten(d, d', t, bits)
    ensures Undisturbed(v, d, d')
  {
    forall p | Live(v, p) && !SystemPart(p)
      ensures d'[At(v, p)] == d[At(v, p)]
    {
      FilePartApart(v, p);
    }
  }

  /** The writes of a successful Create, in their order. */
  ghost predicate CreateWrites(d: Image, d1: Image, d3: Image, name: CString, size: int32, h: Header, bits: seq<bool>)
  {
    && ValidImage(d)
    && var v := ViewOf(d);
    && CreateOutcome(v, Key(name), size) == Created
    && FirstClear(v.bits) != -1
    && d1 == d[FirstClear(v.bits) := EncodeHeader(h)]
    && Bootable(d1)
    && SystemWritten(d1, d3, Added(v.table, name, FirstClear(v.bits)), bits)
    && h.numBytes == size && h.numSectors == DivRoundUp(size, SECTOR_SIZE)
    && Allotted(v.bits[FirstClear(v.bits) := true], bits, h.dataSectors[..Used(h)])
  }

  lemma CreatedOnDisk(d: Image, d1: Image, d3: Image, name: CString, size: int32, h: Header, bits: seq<bool>)
    requires CreateWrites(d, d1, d3, name, size, h, bits)
    ensures Bootable(d3) && CreatedView(ViewOf(d), ViewOf(d3), name, size)
    ensures Undisturbed(ViewOf(d), d, d3)
  {
    var v, s := ViewOf(d), FirstClear(ViewOf(d).bits);
    HeaderWritten(d, s, h);
    SystemWrittenUndisturbed(v, d1, d3, Added(v.table, name, s), bits);
    assert Undisturbed(v, d, d3);
    assert d3[s] == EncodeHeader(h);
    HeaderRoundTrip(h);
    CreatedHeaders(v, d, d3, name, s, h);
  }

  lemma CreatedHeaders(v: View, d: Image, d3: Image, name: CString, s: int32, h: Header)
    requires WellMapped(v) && Undisturbed(v, d, d3) && FreeSlot(v.table) != -1 && v.hdrs == HeadersOf(d, v.table)
    requires 0 <= s < NUM_SECTORS && DecodeHeader(d3[s]) == h
    ensures HeadersOf(d3, Added(v.table, name, s)) == v.hdrs[FreeSlot(v.table) := h]
  {
    forall e | 0 <= e < NUM_DIR_ENTRIES && v.table[e].inUse
      ensures HeaderOf(d3, v.table[e]) == v.hdrs[e]
    {
      UndisturbedFile(v, d, d3, e);
    }
  }

  /** The writes of a successful Remove. */
  lemma RemovedOnDisk(d: Image, d2: Image, key: CString, bits: seq<bool>)
    requires ValidImage(d) && IndexOf(ViewOf(d).table, key) != -1
    requires SystemWritten(d, d2, Removed(ViewOf(d).table, key), bits)
    requires var v, e := ViewOf(d), IndexOf(ViewOf(d).table, key);
      forall s | 0 <= s < NUM_SECTORS ::
        bits[s] <==> v.bits[s] && s != v.table[e].sector && s !in v.hdrs[e].dataSectors[..Used(v.hdrs[e])]
    ensures Bootable(d2) && RemovedView(ViewOf(d), ViewOf(d2), key)
    ensures Undisturbed(ViewOf(d), d, d2)
  {
    var v := ViewOf(d);
    SystemWrittenUndisturbed(v, d, d2, Removed(v.table, key), bits);
    RemovedHeaders(v, d, d2, key);
  }

  lemma RemovedHeaders(v: View, d: Image, d2: Image, key: CString)
    requires WellMapped(v) && Undisturbed(v, d, d2) && IndexOf(v.table, key) != -1 && v.hdrs == HeadersOf(d, v.table)
    ensures HeadersOf(d2, Removed(v.table, key)) == v.hdrs[IndexOf(v.table, key) := NoHeader()]
  {
    forall e | 0 <= e < NUM_DIR_ENTRIES && v.table[e].inUse
      ensures HeaderOf(d2, v.table[e]) == v.hdrs[e]
    {
      UndisturbedFile(v, d, d2, e);
    }
  }

  // ----- the steps of the file system on the disk -----

  /** Create: a refused request changes no sector; a granted one adds a file and disturbs no other. */
  ghost predicate CreateStep(d: Image, d': Image, name: CString, size: int32)
    requires ValidImage(d)
  {
    match CreateOutcome(ViewOf(d), Key(name), size)
    case Refused => d' == d
    case HeaderOverrun => false
    case Created =>
      Bootable(d') && CreatedView(ViewOf(d), ViewOf(d'), name, size) && Undisturbed(ViewOf(d), d, d')
  }

  /** Remove: likewise. */
  ghost predicate RemoveStep(d: Image, d': Image, name: CString)
    requires ValidImage(d)
  {
    if IndexOf(ViewOf(d).table, Key(name)) == -1 then d' == d
    else Bootable(d') && RemovedView(ViewOf(d), ViewOf(d'), Key(name)) && Undisturbed(ViewOf(d), d, d')
  }
}
