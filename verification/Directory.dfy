/**
 * filesys/directory.cc: a table of name and header-sector pairs, and its byte
 * image (20 bytes an entry: bool, 3 of padding, int, 10 characters, 2 of padding).
 */
module Directories {
  import opened Bytes
  import opened OpenFiles

  const FILE_NAME_MAX_LEN := 9
  const NAME_FIELD := FILE_NAME_MAX_LEN + 1
  const ENTRY_SIZE := 20

  // ----- C strings -----

  /** The characters of a C string, without the final NUL. */
  type CString = s: seq<byte> | 0 !in s

  function CharAt(name: CString, i: nat): (c: byte)
  {
    if i < |name| then name[i] else 0
  }

  type NameField = f: seq<byte> | |f| == NAME_FIELD witness [0, 0, 0, 0, 0, 0, 0, 0, 0, 0]

  /** `!strncmp(f, name, n)`, from character i on. */
  predicate StrNEqual(f: NameField, name: CString, n: nat, i: nat := 0)
    requires i <= n <= NAME_FIELD
    decreases n - i
  {
    i == n || (f[i] == CharAt(name, i) && (f[i] == 0 || StrNEqual(f, name, n, i + 1)))
  }

  /** `strncpy(f, name, n)`: the characters, then NULs up to n; the rest of the field stays. */
  function StrNCopy(f: NameField, name: CString, n: nat): (r: NameField)
    requires n <= NAME_FIELD
  {
    seq(n, i requires 0 <= i < n => CharAt(name, i)) + f[n..]
  }

  /** What a directory tells names apart by: their first nine characters. */
  function Key(name: CString): (k: CString)
  {
    if |name| <= FILE_NAME_MAX_LEN then name else name[..FILE_NAME_MAX_LEN]
  }

  /** The key that a stored name stands for, from character i on. */
  function FieldKey(f: NameField, i: nat := 0): (k: CString)
    requires i <= FILE_NAME_MAX_LEN
    ensures |k| <= FILE_NAME_MAX_LEN - i
    decreases FILE_NAME_MAX_LEN - i
  {
    if i == FILE_NAME_MAX_LEN || f[i] == 0 then [] else [f[i]] + FieldKey(f, i + 1)
  }

  lemma {:induction false} EqualKeysFrom(f: NameField, name: CString, i: nat)
    requires i <= FILE_NAME_MAX_LEN && i <= |name|
    ensures StrNEqual(f, name, FILE_NAME_MAX_LEN, i) <==> FieldKey(f, i) == Key(name)[Min(i, |Key(name)|)..]
    decreases FILE_NAME_MAX_LEN - i
  {
    var k := Key(name);
    if i < FILE_NAME_MAX_LEN && i < |name| {
      EqualKeysFrom(f, name, i + 1);
      assert k[i..] == [k[i]] + k[i + 1..];
    }
  }

  function Min(a: nat, b: nat): (m: nat)
  {
    if a < b then a else b
  }

  /** The comparison of the source decides exactly whether the keys agree. */
  lemma StrNEqualIffSameKey(f: NameField, name: CString)
    ensures StrNEqual(f, name, FILE_NAME_MAX_LEN) <==> FieldKey(f) == Key(name)
  {
    EqualKeysFrom(f, name, 0);
  }

  lemma {:induction false} CopiedFrom(f: NameField, name: CString, i: nat)
    requires i <= FILE_NAME_MAX_LEN && i <= |name|
    ensures StrNEqual(StrNCopy(f, name, FILE_NAME_MAX_LEN), name, FILE_NAME_MAX_LEN, i)
    decreases FILE_NAME_MAX_LEN - i
  {
    if i < FILE_NAME_MAX_LEN && i < |name| {
      CopiedFrom(f, name, i + 1);
    }
  }

  lemma StoredKey(f: NameField, name: CString)
    ensures FieldKey(StrNCopy(f, name, FILE_NAME_MAX_LEN)) == Key(name)
  {
    CopiedFrom(f, name, 0);
    StrNEqualIffSameKey(StrNCopy(f, name, FILE_NAME_MAX_LEN), name);
  }

  // ----- entries and their byte image -----

  datatype Entry = Entry(inUse: bool, sector: int32, name: NameField)

  function EncodeEntry(e: Entry): (s: seq<byte>)
    ensures |s| == ENTRY_SIZE
  {
    [if e.inUse then 1 else 0, 0, 0, 0] + EncodeInt(e.sector) + e.name + [0, 0]
  }

  function DecodeEntry(s: seq<byte>): (e: Entry)
    requires |s| == ENTRY_SIZE
  {
    Entry(s[0] != 0, DecodeInt(s[4..8]), s[8..18])
  }

  lemma EntryRoundTrip(e: Entry)
    ensures DecodeEntry(EncodeEntry(e)) == e
  {
    var s := EncodeEntry(e);
    assert s[4..8] == EncodeInt(e.sector);
    assert s[8..18] == e.name;
    IntRoundTrip(e.sector);
  }

  function EncodeTable(t: seq<Entry>): (s: seq<byte>)
    ensures |s| == ENTRY_SIZE * |t|
  {
    Concat(t, ENTRY_SIZE, EncodeEntry)
  }

  function DecodeTable(s: seq<byte>, n: nat): (t: seq<Entry>)
    requires ENTRY_SIZE * n <= |s|
    ensures |t| == n
  {
    seq(n, i requires 0 <= i < n => DecodeEntry(s[ENTRY_SIZE * i..ENTRY_SIZE * i + ENTRY_SIZE]))
  }

  lemma TableRoundTrip(t: seq<Entry>)
    ensures DecodeTable(EncodeTable(t), |t|) == t
  {
    hide EncodeEntry, DecodeEntry, Concat;
    forall i | 0 <= i < |t|
      ensures DecodeTable(EncodeTable(t), |t|)[i] == t[i]
    {
      ConcatAt(t, ENTRY_SIZE, EncodeEntry, i);
      EntryRoundTrip(t[i]);
    }
  }

  /** A table is in the first bytes of its file. */
  lemma SameTable(s: seq<byte>, file: seq<byte>, n: nat)
    requires |s| == ENTRY_SIZE * n <= |file| && s == file[..|s|]
    ensures DecodeTable(s, n) == DecodeTable(file, n)
  {
    hide DecodeEntry;
    forall i | 0 <= i < n
      ensures DecodeTable(s, n)[i] == DecodeTable(file, n)[i]
    {
      SamePiece(s, file, ENTRY_SIZE * i, ENTRY_SIZE * i + ENTRY_SIZE);
    }
  }

  // ----- the table -----

  predicate Matches(e: Entry, key: CString)
  {
    e.inUse && FieldKey(e.name) == key
  }

  /** The least position whose entry matches, or -1. */
  ghost predicate IsIndexOf(t: seq<Entry>, key: CString, r: int)
  {
    if r == -1 then forall i | 0 <= i < |t| :: !Matches(t[i], key)
    else 0 <= r < |t| && Matches(t[r], key) && forall i | 0 <= i < r :: !Matches(t[i], key)
  }

  /** The least position whose entry is not in use, or -1. */
  ghost predicate IsFreeSlot(t: seq<Entry>, r: int)
  {
    if r == -1 then forall i | 0 <= i < |t| :: t[i].inUse
    else 0 <= r < |t| && !t[r].inUse && forall i | 0 <= i < r :: t[i].inUse
  }

  function IndexOf(t: seq<Entry>, key: CString, from: nat := 0): (r: int)
    requires from <= |t| && forall i | 0 <= i < from :: !Matches(t[i], key)
    ensures IsIndexOf(t, key, r)
    decreases |t| - from
  {
    if from == |t| then -1 else if Matches(t[from], key) then from else IndexOf(t, key, from + 1)
  }

  function FreeSlot(t: seq<Entry>, from: nat := 0): (r: int)
    requires from <= |t| && forall i | 0 <= i < from :: t[i].inUse
    ensures IsFreeSlot(t, r)
    decreases |t| - from
  {
    if from == |t| then -1 else if !t[from].inUse then from else FreeSlot(t, from + 1)
  }

  function SectorOfName(t: seq<Entry>, key: CString): (sector: int)
  {
    var i := IndexOf(t, key);
    if i == -1 then -1 else t[i].sector
  }

  function Added(t: seq<Entry>, name: CString, sector: int32): (t': seq<Entry>)
    requires FreeSlot(t) != -1
    ensures |t'| == |t|
  {
    var i := FreeSlot(t);
    t[i := Entry(true, sector, StrNCopy(t[i].name, name, FILE_NAME_MAX_LEN))]
  }

  function Removed(t: seq<Entry>, key: CString): (t': seq<Entry>)
    requires IndexOf(t, key) != -1
    ensures |t'| == |t|
  {
    var i := IndexOf(t, key);
    t[i := t[i].(inUse := false)]
  }

  class Directory {
    const tableSize: nat
    const table: array<Entry>

    ghost predicate Valid()
    {
      table.Length == tableSize
    }

    ghost function Contents(): (t: seq<Entry>)
      requires Valid()
      reads table
      ensures |t| == tableSize
    {
      table[..]
    }

    /** Only the in-use bits are set; what the rest of the new table holds is `memory`. */
    constructor (size: nat, memory: seq<Entry>)
      requires |memory| == size
      ensures Valid() && fresh(table) && tableSize == size
      ensures forall i | 0 <= i < size :: Contents()[i] == memory[i].(inUse := false)
    {
      tableSize := size;
      table := new Entry[size](i requires 0 <= i < size => memory[i]);
      new;
      for i := 0 to size
        invariant forall j | 0 <= j < size :: table[j] == if j < i then memory[j].(inUse := false) else memory[j]
      {
        table[i] := table[i].(inUse := false);
      }
    }

    method FetchFrom(file: OpenFile)
      requires Valid() && file.Valid() && ENTRY_SIZE * tableSize <= file.hdr.numBytes
      modifies table
      ensures Contents() == DecodeTable(file.Contents(), tableSize)
    {
      var bytes := new byte[ENTRY_SIZE * tableSize];
      var n := file.ReadAt(bytes, 0, ENTRY_SIZE * tableSize, 0);
      hide DecodeTable;
      assert bytes[..] == bytes[0..0 + n];
      assert bytes[..] == file.Contents()[..n];
      SameTable(bytes[..], file.Contents(), tableSize);
      var entries := DecodeTable(bytes[..], tableSize);
      forall i | 0 <= i < tableSize {
        table[i] := entries[i];
      }
    }

    method WriteBack(file: OpenFile)
      requires Valid() && file.Valid() && ENTRY_SIZE * tableSize <= file.hdr.numBytes
      requires tableSize > 0
      modifies file.disk.sectors
      ensures Written(old(file.disk.Contents()), file.disk.Contents(), file.hdr, 0, EncodeTable(Contents()))
    {
      var all := EncodeTable(table[..]);
      var bytes := new byte[|all|](i requires 0 <= i < |all| => all[i]);
      assert bytes[..] == all;
      var n := file.WriteAt(bytes, |all|, 0);
      assert bytes[..n] == all;
    }

    method FindIndex(name: CString) returns (r: int)
      requires Valid()
      ensures r == IndexOf(Contents(), Key(name))
    {
      for i := 0 to tableSize
        invariant forall j | 0 <= j < i :: !Matches(table[j], Key(name))
      {
        StrNEqualIffSameKey(table[i].name, name);
        if table[i].inUse && StrNEqual(table[i].name, name, FILE_NAME_MAX_LEN) {
          return i;
        }
      }
      return -1;
    }

    method Find(name: CString) returns (sector: int)
      requires Valid()
      ensures sector == SectorOfName(Contents(), Key(name))
    {
      var i := FindIndex(name);
      if i != -1 {
        return table[i].sector;
      }
      return -1;
    }

    method Add(name: CString, newSector: int32) returns (ok: bool)
      requires Valid()
      modifies table
      ensures ok == (IndexOf(old(Contents()), Key(name)) == -1 && FreeSlot(old(Contents())) != -1)
      ensures Contents() == if ok then Added(old(Contents()), name, newSector) else old(Contents())
    {
      var at := FindIndex(name);
      if at != -1 {
        return false;
      }
      for i := 0 to tableSize
        invariant forall j | 0 <= j < i :: table[j].inUse
      {
        if !table[i].inUse {
          table[i] := Entry(true, newSector, StrNCopy(table[i].name, name, FILE_NAME_MAX_LEN));
          return true;
        }
      }
      return false;
    }

    method Remove(name: CString) returns (ok: bool)
      requires Valid()
      modifies table
      ensures ok == (IndexOf(old(Contents()), Key(name)) != -1)
      ensures Contents() == if ok then Removed(old(Contents()), Key(name)) else old(Contents())
    {
      var i := FindIndex(name);
      if i == -1 {
        return false;
      }
      table[i] := table[i].(inUse := false);
      return true;
    }
  }
}
