/**
 * Whole runs of the file system: every sequence of Create, Remove and writes
 * keeps the invariant, and behaves like a map from names to byte strings.
 */
module VolumeRuns {
  import opened Bytes
  import opened BitMaps
  import opened Headers
  import opened OpenFiles
  import opened Directories
  import opened FileHeaders
  import opened Volumes
  import opened VolumeWrites
  import opened FileSystems

  // ----- the disk as a map -----

  ghost function Keys(t: seq<Entry>): (ks: set<CString>)
    ensures forall k: CString :: k in ks <==> IndexOf(t, k) != -1
  {
    set e | 0 <= e < |t| && t[e].inUse :: FieldKey(t[e].name)
  }

  ghost function FileOf(d: Image, v: View, k: CString): (b: seq<byte>)
    requires WellMapped(v)
  {
    var e := IndexOf(v.table, k);
    if e == -1 then [] else FileBytes(d, v.hdrs[e])
  }

  /** What the disk stores: the bytes of each file, by the key of its name. */
  ghost function Files(d: Image): (m: map<CString, seq<byte>>)
    requires ValidImage(d)
  {
    map k: CString | k in Keys(ViewOf(d).table) :: FileOf(d, ViewOf(d), k)
  }

  // ----- steps on the disk -----

  datatype Op =
    | CreateOp(name: CString, size: int32)
    | RemoveOp(name: CString)
    | WriteOp(name: CString, position: nat, data: seq<byte>)

  /** A write through a handle whose file is still in the directory. */
  ghost predicate WriteStep(d: Image, d': Image, name: CString, position: nat, data: seq<byte>)
    requires ValidImage(d)
  {
    var v := ViewOf(d);
    var e := IndexOf(v.table, Key(name));
    && e != -1 && |data| > 0 && position + |data| <= Length(v.hdrs[e])
    && Written(d, d', v.hdrs[e], position, data)
  }

  ghost predicate Step(d: Image, d': Image, op: Op)
  {
    ValidImage(d) &&
    match op
    case CreateOp(name, size) => CreateStep(d, d', name, size)
    case RemoveOp(name) => RemoveStep(d, d', name)
    case WriteOp(name, position, data) => WriteStep(d, d', name, position, data)
  }

  ghost predicate Succeeds(d: Image, op: Op)
    requires ValidImage(d)
  {
    match op
    case CreateOp(name, size) => CreateOutcome(ViewOf(d), Key(name), size) == Created
    case RemoveOp(name) => IndexOf(ViewOf(d).table, Key(name)) != -1
    case WriteOp(_, _, _) => true
  }

  // ----- steps on the map -----

  ghost predicate MapStep(m: map<CString, seq<byte>>, m': map<CString, seq<byte>>, op: Op, ok: bool)
  {
    match op
    case CreateOp(name, size) =>
      if !ok then m' == m
      else
        && Key(name) !in m && Key(name) in m'
        && m' == m[Key(name) := m'[Key(name)]]
        && |m'[Key(name)]| == if size < 0 then 0 else size
    case RemoveOp(name) => (ok <==> Key(name) in m) && m' == m - {Key(name)}
    case WriteOp(name, position, data) =>
      && Key(name) in m && position + |data| <= |m[Key(name)]|
      && m' == m[Key(name) := Splice(m[Key(name)], position, data)]
  }

  // ----- writes to a file keep the view -----

  /** Only sectors of the written file change. */
  lemma WriteUndisturbed(v: View, d: Image, d': Image, e: nat, position: nat, data: seq<byte>, p: Part)
    requires ValidView(v) && InUse(v, e) && position + |data| <= Length(v.hdrs[e])
    requires Written(d, d', v.hdrs[e], position, data)
    requires Live(v, p) && !(p.FileData? && p.e == e)
    ensures d'[At(v, p)] == d[At(v, p)]
  {
    forall i | 0 <= i < Used(v.hdrs[e])
      ensures v.hdrs[e].dataSectors[i] != At(v, p)
    {
      assert At(v, FileData(e, i)) != At(v, p);
    }
  }

  lemma WriteKeepsSystem(v: View, d: Image, d': Image, e: nat, position: nat, data: seq<byte>)
    requires ValidView(v) && InUse(v, e) && position + |data| <= Length(v.hdrs[e])
    requires Written(d, d', v.hdrs[e], position, data)
    ensures SameBoot(d, d')
    ensures FileBytes(d', v.mapHdr) == FileBytes(d, v.mapHdr) && FileBytes(d', v.dirHdr) == FileBytes(d, v.dirHdr)
  {
    WriteUndisturbed(v, d, d', e, position, data, FreeMapHdr);
    WriteUndisturbed(v, d, d', e, position, data, DirectoryHdr);
    forall i | 0 <= i < Used(v.mapHdr)
      ensures d'[v.mapHdr.dataSectors[i]] == d[v.mapHdr.dataSectors[i]]
    {
      WriteUndisturbed(v, d, d', e, position, data, FreeMapData(i));
    }
    forall i | 0 <= i < Used(v.dirHdr)
      ensures d'[v.dirHdr.dataSectors[i]] == d[v.dirHdr.dataSectors[i]]
    {
      WriteUndisturbed(v, d, d', e, position, data, DirectoryData(i));
    }
    FileBytesFrame(d, d', v.mapHdr);
    FileBytesFrame(d, d', v.dirHdr);
  }

  lemma WriteKeepsFile(v: View, d: Image, d': Image, e: nat, position: nat, data: seq<byte>, f: nat)
    requires ValidView(v) && InUse(v, e) && position + |data| <= Length(v.hdrs[e])
    requires Written(d, d', v.hdrs[e], position, data)
    requires InUse(v, f)
    ensures d'[v.table[f].sector] == d[v.table[f].sector]
    ensures f != e ==> FileBytes(d', v.hdrs[f]) == FileBytes(d, v.hdrs[f])
  {
    WriteUndisturbed(v, d, d', e, position, data, FileHdr(f));
    if f != e {
      forall i | 0 <= i < Used(v.hdrs[f])
        ensures d'[v.hdrs[f].dataSectors[i]] == d[v.hdrs[f].dataSectors[i]]
      {
        WriteUndisturbed(v, d, d', e, position, data, FileData(f, i));
      }
      FileBytesFrame(d, d', v.hdrs[f]);
    }
  }

  lemma WriteKeepsView(d: Image, d': Image, e: nat, position: nat, data: seq<byte>)
    requires ValidImage(d) && InUse(ViewOf(d), e) && position + |data| <= Length(ViewOf(d).hdrs[e])
    requires Written(d, d', ViewOf(d).hdrs[e], position, data)
    ensures Bootable(d') && ViewOf(d') == ViewOf(d)
  {
    var v := ViewOf(d);
    WriteKeepsSystem(v, d, d', e, position, data);
    forall f | 0 <= f < NUM_DIR_ENTRIES && v.table[f].inUse
      ensures HeaderOf(d', v.table[f]) == HeaderOf(d, v.table[f])
    {
      WriteKeepsFile(v, d, d', e, position, data, f);
    }
    assert TableOf(d') == v.table;
    assert HeadersOf(d', v.table) == HeadersOf(d, v.table);
  }

  // ----- every step -----

  /** Every step keeps the invariant. */
  lemma StepKeepsValid(d: Image, d': Image, op: Op)
    requires Step(d, d', op)
    ensures ValidImage(d')
  {
    hide ValidView, CreatedView, RemovedView, ViewOf, IndexOf, Written;
    var v := ViewOf(d);
    match op
    case CreateOp(name, size) =>
      if CreateOutcome(v, Key(name), size) == Created {
        CreateKeepsValid(v, ViewOf(d'), name, size);
      }
    case RemoveOp(name) =>
      if IndexOf(v.table, Key(name)) != -1 {
        RemoveKeepsValid(v, ViewOf(d'), Key(name));
      }
    case WriteOp(name, position, data) =>
      WriteKeepsView(d, d', IndexOf(v.table, Key(name)), position, data);
  }

  // ----- refinement -----

  lemma IndexUnique(t: seq<Entry>, k: CString, i: nat)
    requires NamesDistinct(t) && i < |t| && Matches(t[i], k)
    ensures IndexOf(t, k) == i
  {
  }

  lemma AddedIndex(t: seq<Entry>, name: CString, sector: int32, k: CString)
    requires NamesDistinct(t) && FreeSlot(t) != -1 && IndexOf(t, Key(name)) == -1
    ensures IndexOf(Added(t, name, sector), k) == if k == Key(name) then FreeSlot(t) else IndexOf(t, k)
  {
    var t', e := Added(t, name, sector), FreeSlot(t);
    StoredKey(t[e].name, name);
    AddedNames(t, name, sector);
    if k == Key(name) {
      IndexUnique(t', k, e);
    } else if IndexOf(t, k) != -1 {
      IndexUnique(t', k, IndexOf(t, k));
    }
  }

  lemma RemovedIndex(t: seq<Entry>, key: CString, k: CString)
    requires NamesDistinct(t) && IndexOf(t, key) != -1
    ensures IndexOf(Removed(t, key), k) == if k == key then -1 else IndexOf(t, k)
  {
    var t' := Removed(t, key);
    if k != key && IndexOf(t, k) != -1 {
      IndexUnique(t', k, IndexOf(t, k));
    }
  }

  /** Create adds one name and keeps the bytes of the other files. */
  lemma CreateRefines(d: Image, d': Image, name: CString, size: int32, k: CString)
    requires ValidImage(d) && CreateOutcome(ViewOf(d), Key(name), size) == Created && CreateStep(d, d', name, size)
    requires ValidImage(d')
    ensures IndexOf(ViewOf(d).table, Key(name)) == -1
    ensures k in Keys(ViewOf(d').table) <==> k == Key(name) || k in Keys(ViewOf(d).table)
    ensures k != Key(name) ==> FileOf(d', ViewOf(d'), k) == FileOf(d, ViewOf(d), k)
    ensures |FileOf(d', ViewOf(d'), Key(name))| == if size < 0 then 0 else size
  {
    hide ViewOf, IndexOf, FreeSlot, Added, Keys, FileBytes;
    var v, v' := ViewOf(d), ViewOf(d');
    var e := FreeSlot(v.table);
    AddedIndex(v.table, name, FirstClear(v.bits), k);
    AddedIndex(v.table, name, FirstClear(v.bits), Key(name));
    var i := IndexOf(v.table, k);
    if k != Key(name) && i != -1 {
      assert IsIndexOf(v.table, k, i) && IsFreeSlot(v.table, e);
      UndisturbedFile(v, d, d', i);
    }
  }

  lemma RemoveRefines(d: Image, d': Image, name: CString, k: CString)
    requires ValidImage(d) && IndexOf(ViewOf(d).table, Key(name)) != -1 && RemoveStep(d, d', name)
    requires ValidImage(d')
    ensures k in Keys(ViewOf(d').table) <==> k != Key(name) && k in Keys(ViewOf(d).table)
    ensures k != Key(name) ==> FileOf(d', ViewOf(d'), k) == FileOf(d, ViewOf(d), k)
  {
    hide ViewOf, IndexOf, Removed, Keys, FileBytes;
    var v, v' := ViewOf(d), ViewOf(d');
    RemovedIndex(v.table, Key(name), k);
    var i := IndexOf(v.table, k);
    if k != Key(name) && i != -1 {
      assert IsIndexOf(v.table, k, i) && IsIndexOf(v.table, Key(name), IndexOf(v.table, Key(name)));
      UndisturbedFile(v, d, d', i);
    }
  }

  lemma WriteRefines(d: Image, d': Image, name: CString, position: nat, data: seq<byte>, k: CString)
    requires ValidImage(d) && WriteStep(d, d', name, position, data)
    ensures ValidImage(d') && ViewOf(d') == ViewOf(d)
    ensures FileOf(d', ViewOf(d'), k)
         == if k == Key(name) then Splice(FileOf(d, ViewOf(d), k), position, data) else FileOf(d, ViewOf(d), k)
  {
    hide ViewOf, IndexOf, FileBytes;
    var v := ViewOf(d);
    var e, i := IndexOf(v.table, Key(name)), IndexOf(v.table, k);
    assert IsIndexOf(v.table, Key(name), e) && IsIndexOf(v.table, k, i);
    WriteKeepsView(d, d', e, position, data);
    if i != -1 {
      WriteKeepsFile(v, d, d', e, position, data, i);
    }
  }

  lemma FilesAt(d: Image, k: CString)
    requires ValidImage(d)
    ensures k in Files(d) <==> k in Keys(ViewOf(d).table)
    ensures k in Files(d) ==> Files(d)[k] == FileOf(d, ViewOf(d), k)
    ensures k in Files(d) <==> IndexOf(ViewOf(d).table, k) != -1
  {
  }

  lemma CreateMapStep(d: Image, d': Image, name: CString, size: int32)
    requires ValidImage(d) && CreateOutcome(ViewOf(d), Key(name), size) == Created && CreateStep(d, d', name, size)
    requires ValidImage(d')
    ensures MapStep(Files(d), Files(d'), CreateOp(name, size), true)
  {
    hide ValidView, ViewOf, Files, FileOf, CreateStep, CreateOutcome, Keys;
    forall k: CString
      ensures k in Files(d') <==> k == Key(name) || k in Files(d)
      ensures k in Files(d) && k != Key(name) ==> Files(d')[k] == Files(d)[k]
    {
      CreateRefines(d, d', name, size, k);
      FilesAt(d, k);
      FilesAt(d', k);
    }
    CreateRefines(d, d', name, size, Key(name));
    FilesAt(d, Key(name));
    FilesAt(d', Key(name));
  }

  lemma RemoveMapStep(d: Image, d': Image, name: CString)
    requires ValidImage(d) && IndexOf(ViewOf(d).table, Key(name)) != -1 && RemoveStep(d, d', name)
    requires ValidImage(d')
    ensures MapStep(Files(d), Files(d'), RemoveOp(name), true)
  {
    hide ValidView, ViewOf, Files, FileOf, RemoveStep, Keys;
    forall k: CString
      ensures k in Files(d') <==> k != Key(name) && k in Files(d)
      ensures k in Files(d') ==> Files(d')[k] == Files(d)[k]
    {
      RemoveRefines(d, d', name, k);
      FilesAt(d, k);
      FilesAt(d', k);
    }
    FilesAt(d, Key(name));
  }

  lemma WriteMapStep(d: Image, d': Image, name: CString, position: nat, data: seq<byte>)
    requires ValidImage(d) && WriteStep(d, d', name, position, data) && ValidImage(d')
    ensures MapStep(Files(d), Files(d'), WriteOp(name, position, data), true)
  {
    hide ValidView, ViewOf, Files, FileOf, WriteStep, Keys, Splice, IndexOf;
    WriteFits(d, d', name, position, data);
    forall k: CString
      ensures k in Files(d') <==> k in Files(d)
      ensures k in Files(d) && k != Key(name) ==> Files(d')[k] == Files(d)[k]
    {
      WriteRefines(d, d', name, position, data, k);
      FilesAt(d, k);
      FilesAt(d', k);
    }
    WriteRefines(d, d', name, position, data, Key(name));
    FilesAt(d, Key(name));
    FilesAt(d', Key(name));
  }

  lemma WriteFits(d: Image, d': Image, name: CString, position: nat, data: seq<byte>)
    requires ValidImage(d) && WriteStep(d, d', name, position, data)
    ensures IndexOf(ViewOf(d).table, Key(name)) != -1
    ensures position + |data| <= |FileOf(d, ViewOf(d), Key(name))|
  {
  }

  /** Every step on the sectors is a step on the map of files. */
  lemma StepRefines(d: Image, d': Image, op: Op)
    requires Step(d, d', op)
    ensures ValidImage(d') && MapStep(Files(d), Files(d'), op, Succeeds(d, op))
  {
    hide ValidView, ViewOf, IndexOf, FileOf, CreatedView, RemovedView, Written, Undisturbed;
    StepKeepsValid(d, d', op);
    match op
    case CreateOp(name, size) =>
      if CreateOutcome(ViewOf(d), Key(name), size) == Created {
        CreateMapStep(d, d', name, size);
      }
    case RemoveOp(name) =>
      if IndexOf(ViewOf(d).table, Key(name)) != -1 {
        RemoveMapStep(d, d', name);
      } else {
        assert Key(name) !in Keys(ViewOf(d).table);
      }
    case WriteOp(name, position, data) =>
      WriteMapStep(d, d', name, position, data);
  }

  // ----- runs -----

  ghost predicate IsRun(ds: seq<Image>, ops: seq<Op>)
  {
    && |ds| == |ops| + 1
    && Bootable(ds[0]) && Formatted(ViewOf(ds[0]))
    && forall i | 0 <= i < |ops| :: ValidImage(ds[i]) ==> Step(ds[i], ds[i + 1], ops[i])
  }

  lemma FormattedImage(d: Image)
    requires Bootable(d) && Formatted(ViewOf(d))
    ensures ValidImage(d)
  {
    FormattedValid(ViewOf(d));
  }

  /** In every run from a formatted disk, the invariant holds of every image. */
  lemma {:induction false} RunKeepsValid(ds: seq<Image>, ops: seq<Op>, i: nat)
    requires IsRun(ds, ops) && i < |ds|
    ensures ValidImage(ds[i])
  {
    hide Step, ValidImage, Formatted, ViewOf, Bootable;
    if i == 0 {
      FormattedImage(ds[0]);
    } else {
      RunKeepsValid(ds, ops, i - 1);
      StepKeepsValid(ds[i - 1], ds[i], ops[i - 1]);
    }
  }

  /** And every step of it is a step on the map, which starts empty. */
  lemma RunRefines(ds: seq<Image>, ops: seq<Op>, i: nat)
    requires IsRun(ds, ops) && i < |ops|
    ensures ValidImage(ds[0]) && ValidImage(ds[i]) && ValidImage(ds[i + 1])
    ensures Files(ds[0]) == map[]
    ensures MapStep(Files(ds[i]), Files(ds[i + 1]), ops[i], Succeeds(ds[i], ops[i]))
  {
    RunKeepsValid(ds, ops, 0);
    RunKeepsValid(ds, ops, i);
    StartsEmpty(ds[0]);
    hide Step, MapStep, Succeeds, ValidImage, Files, Formatted, ViewOf;
    StepRefines(ds[i], ds[i + 1], ops[i]);
  }

  lemma StartsEmpty(d: Image)
    requires ValidImage(d) && Formatted(ViewOf(d))
    ensures Files(d) == map[]
  {
  }

  // ----- when Create succeeds, and what undoes it -----

  /** Create succeeds exactly when the name is new, an entry is free and the sectors suffice. */
  lemma CreateIff(v: View, key: CString, size: int32)
    requires ValidView(v)
    ensures CreateOutcome(v, key, size) == Created <==>
      && (forall e | 0 <= e < NUM_DIR_ENTRIES :: !Matches(v.table[e], key))
      && (exists e | 0 <= e < NUM_DIR_ENTRIES :: !v.table[e].inUse)
      && size <= MAX_FILE_SIZE
      && RESERVED + FileSpace(v, NUM_DIR_ENTRIES) + 1 + (if size < 0 then 0 else DivRoundUp(size, SECTOR_SIZE)) <= NUM_SECTORS
  {
    assert IsIndexOf(v.table, key, IndexOf(v.table, key)) && IsFreeSlot(v.table, FreeSlot(v.table));
  }

  /** The table of the header overflows exactly when a Create with that much room exceeds MaxFileSize. */
  lemma OverrunIff(v: View, key: CString, size: int32)
    requires ValidView(v)
    ensures CreateOutcome(v, key, size) == HeaderOverrun <==>
      && IndexOf(v.table, key) == -1 && FreeSlot(v.table) != -1
      && size > MAX_FILE_SIZE
      && RESERVED + FileSpace(v, NUM_DIR_ENTRIES) + 1 + DivRoundUp(size, SECTOR_SIZE) <= NUM_SECTORS
  {
  }

  /** On a fresh disk a file of 3841 bytes overruns the header. */
  lemma OverrunHappens(v: View, key: CString)
    requires Formatted(v)
    ensures CreateOutcome(v, key, MAX_FILE_SIZE + 1) == HeaderOverrun
  {
    FormattedValid(v);
    NoFilesNoSpace(v, NUM_DIR_ENTRIES);
    OverrunIff(v, key, MAX_FILE_SIZE + 1);
  }

  /** Removing a file that was just created restores the free map and the names. */
  lemma CreateThenRemove(v: View, v1: View, v2: View, name: CString, size: int32)
    requires ValidView(v) && Sized(v1) && Sized(v2)
    requires CreateOutcome(v, Key(name), size) == Created && CreatedView(v, v1, name, size)
    requires IndexOf(v1.table, Key(name)) != -1 && RemovedView(v1, v2, Key(name))
    ensures v2.bits == v.bits
    ensures forall k: CString :: IndexOf(v2.table, k) == IndexOf(v.table, k)
    ensures forall e | 0 <= e < NUM_DIR_ENTRIES && v.table[e].inUse :: v2.table[e] == v.table[e] && v2.hdrs[e] == v.hdrs[e]
  {
    var e, s := FreeSlot(v.table), FirstClear(v.bits);
    AddedIndex(v.table, name, s, Key(name));
    AddedNames(v.table, name, s);
    forall k: CString
      ensures IndexOf(v2.table, k) == IndexOf(v.table, k)
    {
      AddedIndex(v.table, name, s, k);
      RemovedIndex(v1.table, Key(name), k);
    }
    var xs := v1.hdrs[e].dataSectors[..Used(v1.hdrs[e])];
    assert Allotted(v.bits[s := true], v1.bits, xs);
    assert forall x | 0 <= x < NUM_SECTORS :: v2.bits[x] == v.bits[x];
  }
}
