/**
 * What a Nachos disk means, and the invariant of the file system: the free map
 * and the directory are files like any other, stored in sectors that the free
 * map itself accounts for.
 */
module Volumes {
  import opened Bytes
  import opened BitMaps
  import opened Headers
  import opened Directories
  import opened FileHeaders

  const FREE_MAP_SECTOR := 0
  const DIRECTORY_SECTOR := 1
  const NUM_DIR_ENTRIES := 10
  const FREE_MAP_FILE_SIZE := NUM_SECTORS / 8
  const DIRECTORY_FILE_SIZE := ENTRY_SIZE * NUM_DIR_ENTRIES

  /** Sectors of a freshly formatted disk: two headers, one for the map, two for the directory. */
  const RESERVED := 5

  /** Stands for the header of an entry that is not in use. */
  ghost function NoHeader(): (h: Header)
    ensures Mapped(h) && Used(h) == 0
  {
    Header(0, 0, seq(NUM_DIRECT, i => 0))
  }

  /** The parsed contents of a disk. */
  datatype View = View(mapHdr: Header, dirHdr: Header, bits: seq<bool>, table: seq<Entry>, hdrs: seq<Header>)

  // ----- reading a disk image -----

  ghost function MapHeader(d: Image): (h: Header)
  {
    DecodeHeader(d[FREE_MAP_SECTOR])
  }

  ghost function DirHeader(d: Image): (h: Header)
  {
    DecodeHeader(d[DIRECTORY_SECTOR])
  }

  ghost predicate Bootable(d: Image)
  {
    && Mapped(MapHeader(d)) && MapHeader(d).numBytes == FREE_MAP_FILE_SIZE
    && Mapped(DirHeader(d)) && DirHeader(d).numBytes == DIRECTORY_FILE_SIZE
  }

  ghost function BitsIn(b: seq<byte>): (bits: seq<bool>)
    requires |b| == FREE_MAP_FILE_SIZE
    ensures |bits| == NUM_SECTORS
  {
    Bits(DecodeWords(b, NUM_SECTORS / BITS_IN_WORD), NUM_SECTORS)
  }

  ghost function TableIn(b: seq<byte>): (t: seq<Entry>)
    requires |b| == DIRECTORY_FILE_SIZE
    ensures |t| == NUM_DIR_ENTRIES
  {
    DecodeTable(b, NUM_DIR_ENTRIES)
  }

  ghost function HeaderOf(d: Image, x: Entry): (h: Header)
  {
    if x.inUse && 0 <= x.sector < NUM_SECTORS then DecodeHeader(d[x.sector]) else NoHeader()
  }

  ghost function HeadersOf(d: Image, t: seq<Entry>): (hs: seq<Header>)
    ensures |hs| == |t|
  {
    seq(|t|, e requires 0 <= e < |t| => HeaderOf(d, t[e]))
  }

  ghost function TableOf(d: Image): (t: seq<Entry>)
    requires Bootable(d)
    ensures |t| == NUM_DIR_ENTRIES
  {
    TableIn(FileBytes(d, DirHeader(d)))
  }

  ghost function ViewOf(d: Image): (v: View)
    requires Bootable(d)
    ensures |v.bits| == NUM_SECTORS && |v.table| == |v.hdrs| == NUM_DIR_ENTRIES
  {
    View(MapHeader(d), DirHeader(d), BitsIn(FileBytes(d, MapHeader(d))), TableOf(d), HeadersOf(d, TableOf(d)))
  }

  // ----- who owns a sector -----

  datatype Part =
    | FreeMapHdr
    | DirectoryHdr
    | FreeMapData(i: nat)
    | DirectoryData(i: nat)
    | FileHdr(e: nat)
    | FileData(e: nat, i: nat)

  ghost predicate Sized(v: View)
  {
    |v.bits| == NUM_SECTORS && |v.table| == |v.hdrs| == NUM_DIR_ENTRIES
  }

  ghost predicate InUse(v: View, e: nat)
    requires Sized(v)
  {
    e < NUM_DIR_ENTRIES && v.table[e].inUse
  }

  ghost predicate Live(v: View, p: Part)
    requires Sized(v)
  {
    match p
    case FreeMapHdr => true
    case DirectoryHdr => true
    case FreeMapData(i) => i < Used(v.mapHdr)
    case DirectoryData(i) => i < Used(v.dirHdr)
    case FileHdr(e) => InUse(v, e)
    case FileData(e, i) => InUse(v, e) && i < Used(v.hdrs[e])
  }

  ghost predicate WellMapped(v: View)
  {
    && Sized(v)
    && Mapped(v.mapHdr) && v.mapHdr.numBytes == FREE_MAP_FILE_SIZE
    && Mapped(v.dirHdr) && v.dirHdr.numBytes == DIRECTORY_FILE_SIZE
    && (forall e | 0 <= e < NUM_DIR_ENTRIES :: Mapped(v.hdrs[e]))
    && (forall e | 0 <= e < NUM_DIR_ENTRIES && v.table[e].inUse :: 0 <= v.table[e].sector < NUM_SECTORS)
  }

  /** The sector that a part of the file system occupies. */
  ghost function At(v: View, p: Part): (s: int)
    requires WellMapped(v) && Live(v, p)
    ensures 0 <= s < NUM_SECTORS
  {
    match p
    case FreeMapHdr => FREE_MAP_SECTOR
    case DirectoryHdr => DIRECTORY_SECTOR
    case FreeMapData(i) => v.mapHdr.dataSectors[i]
    case DirectoryData(i) => v.dirHdr.dataSectors[i]
    case FileHdr(e) => v.table[e].sector
    case FileData(e, i) => v.hdrs[e].dataSectors[i]
  }

  /** No sector has two owners. */
  ghost predicate Disjoint(v: View)
    requires WellMapped(v)
  {
    forall p, q | Live(v, p) && Live(v, q) && At(v, p) == At(v, q) :: p == q
  }

  ghost predicate Owned(v: View, s: int)
    requires WellMapped(v)
  {
    exists p :: Live(v, p) && At(v, p) == s
  }

  /** A sector is marked exactly when it has an owner. */
  ghost predicate Accounted(v: View)
    requires WellMapped(v)
  {
    forall s | 0 <= s < NUM_SECTORS :: v.bits[s] <==> Owned(v, s)
  }

  ghost predicate NamesDistinct(t: seq<Entry>)
  {
    forall e, f | 0 <= e < f < |t| && t[e].inUse && t[f].inUse :: FieldKey(t[e].name) != FieldKey(t[f].name)
  }

  /** Sectors taken by the files of the first n entries: one for the header and those of the data. */
  ghost function FileSpace(v: View, n: nat): (k: nat)
    requires Sized(v) && n <= NUM_DIR_ENTRIES
  {
    if n == 0 then 0
    else FileSpace(v, n - 1) + (if v.table[n - 1].inUse then 1 + Used(v.hdrs[n - 1]) else 0)
  }

  ghost predicate Balanced(v: View)
    requires Sized(v)
  {
    ClearCount(v.bits) + RESERVED + FileSpace(v, NUM_DIR_ENTRIES) == NUM_SECTORS
  }

  ghost predicate ValidView(v: View)
  {
    WellMapped(v) && Disjoint(v) && Accounted(v) && NamesDistinct(v.table) && Balanced(v)
  }

  ghost predicate ValidImage(d: Image)
  {
    Bootable(d) && ValidView(ViewOf(d))
  }

  // ----- what Create and Remove do to a view -----

  datatype CreateResult = Refused | HeaderOverrun | Created

  /**
   * The decision of FileSystem::Create.  HeaderOverrun: there is room on the
   * disk, but FileHeader::Allocate would write past the end of `dataSectors`.
   */
  ghost function CreateOutcome(v: View, key: CString, size: int32): (r: CreateResult)
    requires Sized(v)
  {
    if IndexOf(v.table, key) != -1 || ClearCount(v.bits) == 0 || FreeSlot(v.table) == -1 then Refused
    else if ClearCount(v.bits) - 1 < DivRoundUp(size, SECTOR_SIZE) then Refused
    else if DivRoundUp(size, SECTOR_SIZE) > NUM_DIRECT then HeaderOverrun
    else Created
  }

  /** The view after a successful Create: v' differs from v by one first-fit allocation and one entry. */
  ghost predicate CreatedView(v: View, v': View, name: CString, size: int32)
    requires Sized(v) && Sized(v') && CreateOutcome(v, Key(name), size) == Created
  {
    var e, s := FreeSlot(v.table), FirstClear(v.bits);
    && s != -1
    && var h := v'.hdrs[e];
    && v'.mapHdr == v.mapHdr && v'.dirHdr == v.dirHdr
    && v'.table == Added(v.table, name, s)
    && v'.hdrs == v.hdrs[e := h]
    && h.numBytes == size && h.numSectors == DivRoundUp(size, SECTOR_SIZE)
    && Allotted(v.bits[s := true], v'.bits, h.dataSectors[..Used(h)])
  }

  /** The view after a successful Remove. */
  ghost predicate RemovedView(v: View, v': View, key: CString)
    requires Sized(v) && Sized(v') && IndexOf(v.table, key) != -1
  {
    var e := IndexOf(v.table, key);
    && Used(v.hdrs[e]) <= NUM_DIRECT
    && v'.mapHdr == v.mapHdr && v'.dirHdr == v.dirHdr
    && v'.table == Removed(v.table, key)
    && v'.hdrs == v.hdrs[e := NoHeader()]
    && forall s | 0 <= s < NUM_SECTORS ::
         v'.bits[s] <==> v.bits[s] && s != v.table[e].sector && s !in v.hdrs[e].dataSectors[..Used(v.hdrs[e])]
  }

  // ----- counting free sectors -----

  /** Clearing n distinct marked bits adds n to the count. */
  lemma {:induction false} FreedCount(bits: seq<bool>, bits': seq<bool>, xs: seq<int>)
    requires |bits'| == |bits|
    requires forall i | 0 <= i < |xs| :: 0 <= xs[i] < |bits| && bits[xs[i]]
    requires forall i, j | 0 <= i < j < |xs| :: xs[i] != xs[j]
    requires forall s | 0 <= s < |bits| :: bits'[s] <==> bits[s] && s !in xs
    ensures ClearCount(bits') == ClearCount(bits) + |xs|
    decreases |xs|
  {
    if |xs| == 0 {
      assert bits' == bits;
    } else {
      var m := |xs| - 1;
      var before := bits'[xs[m] := true];
      assert xs == xs[..m] + [xs[m]];
      FreedCount(bits, before, xs[..m]);
      MarkCount(bits', xs[m]);
    }
  }

  /** First-fit allocation of n sectors takes exactly n from the count. */
  lemma AllottedCount(bits: seq<bool>, bits': seq<bool>, xs: seq<int>)
    requires Allotted(bits, bits', xs)
    ensures ClearCount(bits') == ClearCount(bits) - |xs|
  {
    FreedCount(bits', bits, xs);
  }

  /** File space depends on the entries and the header sizes only. */
  lemma {:induction false} SpaceUpdate(v: View, v': View, e: nat, n: nat)
    requires Sized(v) && Sized(v') && e < NUM_DIR_ENTRIES && n <= NUM_DIR_ENTRIES
    requires forall f | 0 <= f < NUM_DIR_ENTRIES && f != e :: v'.table[f] == v.table[f] && v'.hdrs[f] == v.hdrs[f]
    ensures FileSpace(v', n) - FileSpace(v, n) == if e < n then EntrySpace(v', e) - EntrySpace(v, e) else 0
  {
    if n > 0 {
      SpaceUpdate(v, v', e, n - 1);
    }
  }

  ghost function EntrySpace(v: View, e: nat): (k: nat)
    requires Sized(v) && e < NUM_DIR_ENTRIES
  {
    if v.table[e].inUse then 1 + Used(v.hdrs[e]) else 0
  }

  // ----- Create keeps the invariant -----

  ghost predicate OfEntry(p: Part, e: nat)
  {
    p == FileHdr(e) || (p.FileData? && p.e == e)
  }

  /** Entry e is the only one in which the two views differ, and it was free in v. */
  ghost predicate Extends(v: View, v': View, e: nat)
  {
    && WellMapped(v) && WellMapped(v') && e < NUM_DIR_ENTRIES && !v.table[e].inUse
    && v'.mapHdr == v.mapHdr && v'.dirHdr == v.dirHdr
    && forall f | 0 <= f < NUM_DIR_ENTRIES && f != e :: v'.table[f] == v.table[f] && v'.hdrs[f] == v.hdrs[f]
  }

  /** Then the other parts are the same in both. */
  lemma ExtendsParts(v: View, v': View, e: nat, p: Part)
    requires Extends(v, v', e)
    ensures Live(v, p) <==> Live(v', p) && !OfEntry(p, e)
    ensures Live(v, p) ==> At(v, p) == At(v', p)
  {
  }

  /** The new entry has its header in t and its data where first-fit put them. */
  ghost predicate Grown(v: View, v': View, e: nat, t: int)
  {
    && Extends(v, v', e)
    && v'.table[e].inUse && v'.table[e].sector == t && 0 <= t < NUM_SECTORS && !v.bits[t]
    && Allotted(v.bits[t := true], v'.bits, v'.hdrs[e].dataSectors[..Used(v'.hdrs[e])])
  }

  lemma CreatedGrown(v: View, v': View, name: CString, size: int32)
    requires ValidView(v) && Sized(v') && CreateOutcome(v, Key(name), size) == Created
    requires CreatedView(v, v', name, size)
    ensures Grown(v, v', FreeSlot(v.table), FirstClear(v.bits))
  {
    var h := v'.hdrs[FreeSlot(v.table)];
    assert forall i | 0 <= i < Used(h) :: h.dataSectors[i] == h.dataSectors[..Used(h)][i];
    assert Mapped(h);
  }

  /** The sectors of the new file were free and are marked now. */
  lemma NewPartMarked(v: View, v': View, e: nat, t: int, p: Part)
    requires Grown(v, v', e, t) && Live(v', p) && OfEntry(p, e)
    ensures !v.bits[At(v', p)] && v'.bits[At(v', p)]
    ensures p != FileHdr(e) ==> At(v', p) != t
  {
    var h := v'.hdrs[e];
    if p.FileData? {
      assert h.dataSectors[p.i] == h.dataSectors[..Used(h)][p.i];
    }
  }

  lemma NewPartsDistinct(v: View, v': View, e: nat, t: int, p: Part, q: Part)
    requires Grown(v, v', e, t) && Live(v', p) && OfEntry(p, e) && Live(v', q) && OfEntry(q, e)
    requires At(v', p) == At(v', q)
    ensures p == q
  {
    NewPartMarked(v, v', e, t, p);
    NewPartMarked(v, v', e, t, q);
  }

  /** Every newly marked sector belongs to the new file. */
  lemma NewlyMarked(v: View, v': View, e: nat, t: int, s: int) returns (p: Part)
    requires Grown(v, v', e, t) && 0 <= s < NUM_SECTORS && v'.bits[s] && !v.bits[s]
    ensures Live(v', p) && OfEntry(p, e) && At(v', p) == s
  {
    var h := v'.hdrs[e];
    var xs := h.dataSectors[..Used(h)];
    if s == t {
      p := FileHdr(e);
    } else {
      var i :| 0 <= i < |xs| && xs[i] == s;
      p := FileData(e, i);
    }
  }

  /** A sector of the new file is not one that was owned before. */
  lemma NewPartApart(v: View, v': View, e: nat, t: int, p: Part, q: Part)
    requires Grown(v, v', e, t) && Accounted(v)
    requires Live(v', p) && OfEntry(p, e) && Live(v', q) && !OfEntry(q, e)
    ensures At(v', p) != At(v', q)
  {
    NewPartMarked(v, v', e, t, p);
    ExtendsParts(v, v', e, q);
    assert Owned(v, At(v, q));
  }

  lemma GrownDisjoint(v: View, v': View, e: nat, t: int)
    requires Grown(v, v', e, t) && Disjoint(v) && Accounted(v)
    ensures Disjoint(v')
  {
    forall p, q | Live(v', p) && Live(v', q)
      ensures At(v', p) == At(v', q) ==> p == q
    {
      if OfEntry(p, e) && !OfEntry(q, e) {
        NewPartApart(v, v', e, t, p, q);
      } else if OfEntry(q, e) && !OfEntry(p, e) {
        NewPartApart(v, v', e, t, q, p);
      } else if At(v', p) == At(v', q) {
        if OfEntry(p, e) {
          NewPartsDistinct(v, v', e, t, p, q);
        } else {
          ExtendsParts(v, v', e, p);
          ExtendsParts(v, v', e, q);
        }
      }
    }
  }

  lemma GrownAccounted(v: View, v': View, e: nat, t: int)
    requires Grown(v, v', e, t) && Accounted(v)
    ensures Accounted(v')
  {
    forall s | 0 <= s < NUM_SECTORS
      ensures v'.bits[s] <==> Owned(v', s)
    {
      if v.bits[s] {
        var p :| Live(v, p) && At(v, p) == s;
        ExtendsParts(v, v', e, p);
        assert At(v', p) == s;
      } else if v'.bits[s] {
        var p := NewlyMarked(v, v', e, t, s);
      } else if Owned(v', s) {
        var p :| Live(v', p) && At(v', p) == s;
        ExtendsParts(v, v', e, p);
        if OfEntry(p, e) {
          NewPartMarked(v, v', e, t, p);
        } else {
          assert Owned(v, s);
        }
      }
    }
  }

  lemma GrownBalanced(v: View, v': View, e: nat, t: int)
    requires Grown(v, v', e, t) && Balanced(v)
    ensures Balanced(v')
  {
    MarkCount(v.bits, t);
    AllottedCount(v.bits[t := true], v'.bits, v'.hdrs[e].dataSectors[..Used(v'.hdrs[e])]);
    SpaceUpdate(v, v', e, NUM_DIR_ENTRIES);
  }

  lemma AddedNames(t: seq<Entry>, name: CString, sector: int32)
    requires NamesDistinct(t) && FreeSlot(t) != -1 && IndexOf(t, Key(name)) == -1
    ensures NamesDistinct(Added(t, name, sector))
  {
    StoredKey(t[FreeSlot(t)].name, name);
    assert forall i | 0 <= i < |t| && t[i].inUse :: FieldKey(t[i].name) != Key(name);
  }

  /** A successful Create keeps the invariant of the file system. */
  lemma CreateKeepsValid(v: View, v': View, name: CString, size: int32)
    requires ValidView(v) && Sized(v') && CreateOutcome(v, Key(name), size) == Created
    requires CreatedView(v, v', name, size)
    ensures ValidView(v')
  {
    var e, t := FreeSlot(v.table), FirstClear(v.bits);
    CreatedGrown(v, v', name, size);
    GrownDisjoint(v, v', e, t);
    GrownAccounted(v, v', e, t);
    GrownBalanced(v, v', e, t);
    AddedNames(v.table, name, t);
  }

  // ----- Remove keeps the invariant -----

  /** Entry e leaves the directory and its sectors leave the free map. */
  ghost predicate Shrunk(v: View, v': View, e: nat)
  {
    && Extends(v', v, e) && v.table[e].inUse
    && forall s | 0 <= s < NUM_SECTORS ::
         v'.bits[s] <==> v.bits[s] && s != v.table[e].sector && s !in v.hdrs[e].dataSectors[..Used(v.hdrs[e])]
  }

  lemma RemovedShrunk(v: View, v': View, key: CString)
    requires ValidView(v) && Sized(v') && IndexOf(v.table, key) != -1
    requires RemovedView(v, v', key)
    ensures Shrunk(v, v', IndexOf(v.table, key))
  {
  }

  /** The sectors that lose their mark are those of the removed file. */
  lemma Unmarked(v: View, v': View, e: nat, s: int)
    requires Shrunk(v, v', e) && 0 <= s < NUM_SECTORS && v.bits[s]
    ensures !v'.bits[s] <==> exists p :: Live(v, p) && OfEntry(p, e) && At(v, p) == s
  {
    var h := v.hdrs[e];
    var xs := h.dataSectors[..Used(h)];
    assert forall i | 0 <= i < Used(h) :: h.dataSectors[i] == xs[i];
    if s == v.table[e].sector {
      assert At(v, FileHdr(e)) == s;
    } else if s in xs {
      var i :| 0 <= i < |xs| && xs[i] == s;
      assert At(v, FileData(e, i)) == s;
    }
  }

  lemma ShrunkDisjoint(v: View, v': View, e: nat)
    requires Shrunk(v, v', e) && Disjoint(v)
    ensures Disjoint(v')
  {
    forall p, q | Live(v', p) && Live(v', q) && At(v', p) == At(v', q)
      ensures p == q
    {
      ExtendsParts(v', v, e, p);
      ExtendsParts(v', v, e, q);
    }
  }

  lemma ShrunkAccounted(v: View, v': View, e: nat)
    requires Shrunk(v, v', e) && Disjoint(v) && Accounted(v)
    ensures Accounted(v')
  {
    forall s | 0 <= s < NUM_SECTORS
      ensures v'.bits[s] <==> Owned(v', s)
    {
      if v.bits[s] {
        Unmarked(v, v', e, s);
        var p :| Live(v, p) && At(v, p) == s;
        ExtendsParts(v', v, e, p);
        if !OfEntry(p, e) {
          assert At(v', p) == s;
        } else if Owned(v', s) {
          var q :| Live(v', q) && At(v', q) == s;
          ExtendsParts(v', v, e, q);
        }
      } else if Owned(v', s) {
        var q :| Live(v', q) && At(v', q) == s;
        ExtendsParts(v', v, e, q);
        assert Owned(v, s);
      }
    }
  }

  /** The sectors of one file: its header, then its data. */
  ghost function SectorsOf(v: View, e: nat): (xs: seq<int>)
    requires WellMapped(v) && InUse(v, e)
    ensures |xs| == 1 + Used(v.hdrs[e])
  {
    [v.table[e].sector] + v.hdrs[e].dataSectors[..Used(v.hdrs[e])]
  }

  ghost function PartOf(e: nat, i: nat): (p: Part)
  {
    if i == 0 then FileHdr(e) else FileData(e, i - 1)
  }

  lemma SectorsOwned(v: View, e: nat, i: nat)
    requires WellMapped(v) && Accounted(v) && InUse(v, e) && i < |SectorsOf(v, e)|
    ensures Live(v, PartOf(e, i)) && At(v, PartOf(e, i)) == SectorsOf(v, e)[i]
    ensures v.bits[SectorsOf(v, e)[i]]
  {
    var h := v.hdrs[e];
    assert i > 0 ==> h.dataSectors[i - 1] == h.dataSectors[..Used(h)][i - 1];
    assert At(v, PartOf(e, i)) == SectorsOf(v, e)[i];
    assert Owned(v, SectorsOf(v, e)[i]);
  }

  lemma SectorsDistinct(v: View, e: nat, i: nat, j: nat)
    requires WellMapped(v) && Disjoint(v) && Accounted(v) && InUse(v, e) && i < j < |SectorsOf(v, e)|
    ensures SectorsOf(v, e)[i] != SectorsOf(v, e)[j]
  {
    SectorsOwned(v, e, i);
    SectorsOwned(v, e, j);
  }

  lemma ShrunkBalanced(v: View, v': View, e: nat)
    requires Shrunk(v, v', e) && Disjoint(v) && Accounted(v) && Balanced(v)
    ensures Balanced(v')
  {
    var xs := SectorsOf(v, e);
    forall i | 0 <= i < |xs|
      ensures 0 <= xs[i] < NUM_SECTORS && v.bits[xs[i]]
    {
      SectorsOwned(v, e, i);
    }
    forall i, j | 0 <= i < j < |xs|
      ensures xs[i] != xs[j]
    {
      SectorsDistinct(v, e, i, j);
    }
    FreedCount(v.bits, v'.bits, xs);
    SpaceUpdate(v, v', e, NUM_DIR_ENTRIES);
  }

  /** A successful Remove keeps the invariant of the file system. */
  lemma RemoveKeepsValid(v: View, v': View, key: CString)
    requires ValidView(v) && Sized(v') && IndexOf(v.table, key) != -1
    requires RemovedView(v, v', key)
    ensures ValidView(v')
  {
    var e := IndexOf(v.table, key);
    RemovedShrunk(v, v', key);
    ShrunkDisjoint(v, v', e);
    ShrunkAccounted(v, v', e);
    ShrunkBalanced(v, v', e);
  }
}
