/**
 * filesys/openfile.cc: byte-granular reads and writes over whole-sector I/O.
 * A buffer pointer of the source is an array and an offset into it.
 */
module OpenFiles {
  import opened Bytes
  import opened Headers

  /** A request that transfers nothing, wherever it is; or one whose position and end are ints of the file's side. */
  predicate Sensible(fileLength: int, numBytes: int, position: int)
  {
    numBytes <= 0 || position >= fileLength || (0 <= position && position + numBytes < 0x8000_0000)
  }

  /** The number of bytes a request transfers: the part that lies inside the file. */
  function Clipped(fileLength: int, numBytes: int, position: int): (n: nat)
    ensures n > 0 ==> position + n <= fileLength && n <= numBytes
    ensures n < numBytes ==> n == 0 || position + n == fileLength
    ensures n == 0 <==> numBytes <= 0 || fileLength <= position
  {
    if numBytes <= 0 || position >= fileLength then 0
    else if position + numBytes > fileLength then fileLength - position
    else numBytes
  }

  /** Replace the bytes from `position` on by `data`. */
  function Splice(b: seq<byte>, position: nat, data: seq<byte>): (r: seq<byte>)
    requires position + |data| <= |b|
    ensures |r| == |b|
  {
    b[..position] + data + b[position + |data|..]
  }

  /** Sector s is one that a transfer of n bytes at `position` touches. */
  ghost predicate Touched(h: Header, position: nat, n: nat, s: int)
    requires Mapped(h) && position + n <= Length(h)
  {
    n > 0 && exists i | position / SECTOR_SIZE <= i <= (position + n - 1) / SECTOR_SIZE :: h.dataSectors[i] == s
  }

  /**
   * What a write of `data` does to the disk: the file's bytes are spliced, and
   * every sector outside the request keeps its contents.
   */
  ghost predicate Written(d: Image, d': Image, h: Header, position: nat, data: seq<byte>)
    requires Mapped(h) && position + |data| <= Length(h)
  {
    && FileBytes(d', h) == Splice(FileBytes(d, h), position, data)
    && forall s | 0 <= s < NUM_SECTORS && !Touched(h, position, |data|, s) :: d'[s] == d[s]
  }

  /** The buffer holds, from file offset `first * SectorSize` on, the bytes b of the file. */
  ghost predicate Holds(buf: seq<byte>, first: nat, b: seq<byte>)
  {
    forall k {:trigger b[k]} | first * SECTOR_SIZE <= k < first * SECTOR_SIZE + |buf| && k < |b| ::
      buf[k - first * SECTOR_SIZE] == b[k]
  }

  /** As Holds, but only for the bytes outside [position, position + n). */
  ghost predicate HoldsEdges(buf: seq<byte>, first: nat, b: seq<byte>, position: nat, n: nat)
  {
    forall j | 0 <= j < |buf| ::
      var k := first * SECTOR_SIZE + j;
      k < |b| && !(position <= k < position + n) ==> buf[j] == b[k]
  }

  /** Slot `slot` of the buffer holds its bytes of the file, as far as the file goes. */
  ghost predicate SlotHolds(buf: seq<byte>, slot: nat, first: nat, b: seq<byte>)
    requires (slot + 1) * SECTOR_SIZE <= |buf|
  {
    forall j | slot * SECTOR_SIZE <= j < (slot + 1) * SECTOR_SIZE ::
      first * SECTOR_SIZE + j < |b| ==> buf[j] == b[first * SECTOR_SIZE + j]
  }

  ghost predicate SameOutside(buf: seq<byte>, buf': seq<byte>, slot: nat)
  {
    |buf'| == |buf| &&
    forall j | 0 <= j < |buf| && !(slot * SECTOR_SIZE <= j < (slot + 1) * SECTOR_SIZE) :: buf'[j] == buf[j]
  }

  lemma SlotKept(buf: seq<byte>, buf': seq<byte>, slot: nat, sector: nat, first: nat, b: seq<byte>)
    requires first <= sector && slot != sector - first && (slot + 1) * SECTOR_SIZE <= |buf|
    requires SlotHolds(buf, slot, first, b) && SameOutside(buf, buf', sector - first)
    ensures SlotHolds(buf', slot, first, b)
  {
  }

  /** A buffer whose partly overwritten slots hold the file has the right edges. */
  lemma EdgesFromSlots(buf: seq<byte>, first: nat, last: nat, b: seq<byte>, position: nat, n: nat)
    requires first * SECTOR_SIZE <= position < (first + 1) * SECTOR_SIZE
    requires last * SECTOR_SIZE < position + n <= (last + 1) * SECTOR_SIZE
    requires first <= last && |buf| == (1 + last - first) * SECTOR_SIZE
    requires position == first * SECTOR_SIZE || SlotHolds(buf, 0, first, b)
    requires position + n == (last + 1) * SECTOR_SIZE || SlotHolds(buf, last - first, first, b)
    ensures HoldsEdges(buf, first, b, position, n)
  {
  }

  /** Copying the new bytes over a buffer with the right edges gives the spliced file. */
  lemma SplicedBuffer(b: seq<byte>, buf: seq<byte>, first: nat, position: nat, data: seq<byte>)
    requires position + |data| <= |b| && first * SECTOR_SIZE <= position
    requires position - first * SECTOR_SIZE + |data| <= |buf|
    requires HoldsEdges(buf, first, b, position, |data|)
    ensures Holds(Splice(buf, position - first * SECTOR_SIZE, data), first, Splice(b, position, data))
  {
  }

  /** Writing back a buffer that holds the spliced file is a write of the file. */
  lemma WrittenBack(d: Image, d': Image, h: Header, position: nat, data: seq<byte>, buf: seq<byte>)
    requires Mapped(h) && position + |data| <= Length(h) && |data| > 0
    requires var first, last := position / SECTOR_SIZE, (position + |data| - 1) / SECTOR_SIZE;
      && |buf| == (1 + last - first) * SECTOR_SIZE
      && Holds(buf, first, Splice(FileBytes(d, h), position, data))
      && (forall i | first <= i <= last ::
            d'[h.dataSectors[i]] == buf[(i - first) * SECTOR_SIZE..(i - first + 1) * SECTOR_SIZE])
      && (forall s | 0 <= s < NUM_SECTORS && (forall i | first <= i <= last :: h.dataSectors[i] != s) :: d'[s] == d[s])
    ensures Written(d, d', h, position, data)
  {
    var first, last := position / SECTOR_SIZE, (position + |data| - 1) / SECTOR_SIZE;
    var b, r := FileBytes(d, h), Splice(FileBytes(d, h), position, data);
    forall k | 0 <= k < Length(h)
      ensures FileBytes(d', h)[k] == r[k]
    {
      var i := k / SECTOR_SIZE;
      if first <= i <= last {
        assert buf[k - first * SECTOR_SIZE] == r[k];
        assert d'[h.dataSectors[i]][k % SECTOR_SIZE] == buf[(i - first) * SECTOR_SIZE + k % SECTOR_SIZE];
      } else {
        assert d'[h.dataSectors[i]] == d[h.dataSectors[i]];
        assert r[k] == b[k];
      }
    }
  }

  /** The bytes of a request that lies inside the file are in sectors of its table. */
  lemma LastSector(h: Header, position: nat, n: nat)
    requires Mapped(h) && n > 0 && position + n <= h.numBytes
    ensures (position + n - 1) / SECTOR_SIZE < Used(h) && Length(h) == h.numBytes
  {
  }

  lemma SliceOfBuffer(buf: seq<byte>, first: nat, b: seq<byte>, position: nat, n: nat)
    requires Holds(buf, first, b) && position + n <= |b|
    requires first * SECTOR_SIZE <= position && position + n <= first * SECTOR_SIZE + |buf|
    ensures buf[position - first * SECTOR_SIZE..position - first * SECTOR_SIZE + n] == b[position..position + n]
  {
    var at := position - first * SECTOR_SIZE;
    var x, y := buf[at..at + n], b[position..position + n];
    forall k | 0 <= k < n
      ensures x[k] == y[k]
    {
      assert b[position + k] == buf[position + k - first * SECTOR_SIZE];
    }
  }

  class OpenFile {
    const disk: SynchDisk
    const hdr: Header
    var seekPosition: int

    ghost predicate Valid()
    {
      disk.Valid() && Mapped(hdr)
    }

    ghost function Contents(): (b: seq<byte>)
      requires Valid()
      reads disk.sectors
      ensures |b| == Length(hdr)
    {
      FileBytes(disk.Contents(), hdr)
    }

    constructor (disk: SynchDisk, sector: int)
      requires disk.Valid() && 0 <= sector < NUM_SECTORS
      ensures this.disk == disk && seekPosition == 0
      ensures hdr == DecodeHeader(disk.Contents()[sector])
    {
      this.disk := disk;
      hdr := DecodeHeader(disk.sectors[sector]);
      seekPosition := 0;
    }

    method Seek(position: int)
      modifies `seekPosition
      ensures seekPosition == position
    {
      seekPosition := position;
    }

    method ReadAt(into: array<byte>, at: nat, numBytes: int, position: int) returns (n: nat)
      requires Valid() && Sensible(hdr.numBytes, numBytes, position)
      requires at + Clipped(hdr.numBytes, numBytes, position) <= into.Length
      modifies into
      ensures n == Clipped(hdr.numBytes, numBytes, position)
      ensures n > 0 ==> into[at..at + n] == Contents()[position..position + n]
      ensures into[..at] == old(into[..at]) && into[at + n..] == old(into[at + n..])
    {
      hide Holds, FileBytes, Mapped;
      var fileLength := hdr.numBytes;
      if numBytes <= 0 || position >= fileLength {
        return 0;
      }
      n := if position + numBytes > fileLength then fileLength - position else numBytes;
      var firstSector := position / SECTOR_SIZE;
      var lastSector := (position + n - 1) / SECTOR_SIZE;
      var numSectors := 1 + lastSector - firstSector;
      var buf := new byte[numSectors * SECTOR_SIZE];
      LastSector(hdr, position, n);
      ReadSectors(buf, firstSector, lastSector);
      SliceOfBuffer(buf[..], firstSector, Contents(), position, n);
      CopyBytes(buf, position - firstSector * SECTOR_SIZE, into, at, n);
    }

    /** The loop of ReadAt: bring the sectors of a request into the buffer. */
    method ReadSectors(buf: array<byte>, firstSector: nat, lastSector: nat)
      requires Valid()
      requires firstSector <= lastSector < Used(hdr)
      requires buf.Length == (1 + lastSector - firstSector) * SECTOR_SIZE
      modifies buf
      ensures Holds(buf[..], firstSector, Contents())
    {
      var i := firstSector;
      while i <= lastSector
        invariant firstSector <= i <= lastSector + 1
        invariant forall k | 0 <= k < (i - firstSector) * SECTOR_SIZE ::
            buf[k] == disk.Contents()[hdr.dataSectors[firstSector + k / SECTOR_SIZE]][k % SECTOR_SIZE]
      {
        label L:
        var at := (i - firstSector) * SECTOR_SIZE;
        disk.ReadSector(hdr.dataSectors[i * SECTOR_SIZE / SECTOR_SIZE], buf, at);
        assert buf[..at] == old@L(buf[..at]);
        assert buf[at..at + SECTOR_SIZE] == disk.Contents()[hdr.dataSectors[i]];
        i := i + 1;
      }
    }

    method WriteAt(from: array<byte>, numBytes: int, position: int) returns (n: nat)
      requires Valid() && Sensible(hdr.numBytes, numBytes, position)
      requires numBytes <= from.Length
      modifies disk.sectors
      ensures n == Clipped(hdr.numBytes, numBytes, position)
      ensures if n == 0 then disk.Contents() == old(disk.Contents())
              else Written(old(disk.Contents()), disk.Contents(), hdr, position, from[..n])
    {
      var fileLength := hdr.numBytes;
      if numBytes <= 0 || position >= fileLength {
        return 0;
      }
      n := if position + numBytes > fileLength then fileLength - position else numBytes;
      var firstSector := position / SECTOR_SIZE;
      var lastSector := (position + n - 1) / SECTOR_SIZE;
      var numSectors := 1 + lastSector - firstSector;
      var buf := new byte[numSectors * SECTOR_SIZE];
      FillBuffer(buf, firstSector, lastSector, from, n, position);
      ghost var d := disk.Contents();
      WriteSectors(buf, firstSector, lastSector);
      WrittenBack(d, disk.Contents(), hdr, position, from[..n], buf[..]);
    }

    /** The first half of WriteAt: the partially written sectors, then the new bytes. */
    method FillBuffer(buf: array<byte>, firstSector: nat, lastSector: nat, from: array<byte>, n: nat, position: nat)
      requires Valid() && from != buf
      requires 0 < n <= from.Length && position + n <= hdr.numBytes
      requires firstSector * SECTOR_SIZE <= position < (firstSector + 1) * SECTOR_SIZE
      requires lastSector * SECTOR_SIZE < position + n <= (lastSector + 1) * SECTOR_SIZE
      requires buf.Length == (1 + lastSector - firstSector) * SECTOR_SIZE
      modifies buf
      ensures Holds(buf[..], firstSector, Splice(Contents(), position, from[..n]))
    {
      ReadEdges(buf, firstSector, lastSector, n, position);
      label Read:
      var at := position - firstSector * SECTOR_SIZE;
      CopyBytes(from, 0, buf, at, n);
      assert from[0..n] == from[..n];
      SplicedBuffer(Contents(), old@Read(buf[..]), firstSector, position, from[..n]);
    }

    /** Bring in the first and the last sector of a write where they are only partly overwritten. */
    method ReadEdges(buf: array<byte>, firstSector: nat, lastSector: nat, n: nat, position: nat)
      requires Valid()
      requires 0 < n && position + n <= hdr.numBytes
      requires firstSector * SECTOR_SIZE <= position < (firstSector + 1) * SECTOR_SIZE
      requires lastSector * SECTOR_SIZE < position + n <= (lastSector + 1) * SECTOR_SIZE
      requires buf.Length == (1 + lastSector - firstSector) * SECTOR_SIZE
      modifies buf
      ensures HoldsEdges(buf[..], firstSector, Contents(), position, n)
    {
      var firstAligned := position == firstSector * SECTOR_SIZE;
      var lastAligned := position + n == (lastSector + 1) * SECTOR_SIZE;
      if !firstAligned {
        ReadOneSector(buf, 0, firstSector);
      }
      ghost var afterFirst := buf[..];
      if !lastAligned && (firstSector != lastSector || firstAligned) {
        ReadOneSector(buf, lastSector - firstSector, lastSector);
        if !firstAligned {
          SlotKept(afterFirst, buf[..], 0, lastSector, firstSector, Contents());
        }
      }
      EdgesFromSlots(buf[..], firstSector, lastSector, Contents(), position, n);
    }

    /** `ReadAt(&buf[slot * SectorSize], SectorSize, sector * SectorSize)`, as WriteAt calls it. */
    method ReadOneSector(buf: array<byte>, slot: nat, sector: nat)
      requires Valid()
      requires slot <= sector && sector * SECTOR_SIZE < hdr.numBytes
      requires (slot + 1) * SECTOR_SIZE <= buf.Length
      modifies buf
      ensures SlotHolds(buf[..], slot, sector - slot, Contents())
      ensures SameOutside(old(buf[..]), buf[..], slot)
    {
      var at := slot * SECTOR_SIZE;
      var got := ReadAt(buf, at, SECTOR_SIZE, sector * SECTOR_SIZE);
      forall j | at <= j < at + got
        ensures buf[j] == Contents()[(sector - slot) * SECTOR_SIZE + j]
      {
        assert buf[j] == buf[at..at + got][j - at];
      }
      forall j | 0 <= j < buf.Length && !(at <= j < at + SECTOR_SIZE)
        ensures buf[j] == old(buf[j])
      {
        if j < at {
          assert buf[j] == buf[..at][j];
        } else {
          assert buf[j] == buf[at + got..][j - (at + got)];
        }
      }
    }

    /** The loop of WriteAt: write the buffer back, sector by sector. */
    method WriteSectors(buf: array<byte>, firstSector: nat, lastSector: nat)
      requires Valid()
      requires firstSector <= lastSector < Used(hdr)
      requires buf.Length == (1 + lastSector - firstSector) * SECTOR_SIZE
      modifies disk.sectors
      ensures forall i | firstSector <= i <= lastSector ::
          disk.Contents()[hdr.dataSectors[i]] == buf[(i - firstSector) * SECTOR_SIZE..(i - firstSector + 1) * SECTOR_SIZE]
      ensures forall s | 0 <= s < NUM_SECTORS && (forall i | firstSector <= i <= lastSector :: hdr.dataSectors[i] != s) ::
          disk.Contents()[s] == old(disk.Contents())[s]
    {
      var i := firstSector;
      while i <= lastSector
        invariant firstSector <= i <= lastSector + 1
        invariant forall j | firstSector <= j < i ::
            disk.Contents()[hdr.dataSectors[j]] == buf[(j - firstSector) * SECTOR_SIZE..(j - firstSector + 1) * SECTOR_SIZE]
        invariant forall s | 0 <= s < NUM_SECTORS && (forall j | firstSector <= j < i :: hdr.dataSectors[j] != s) ::
            disk.Contents()[s] == old(disk.Contents())[s]
      {
        disk.WriteSector(hdr.dataSectors[i * SECTOR_SIZE / SECTOR_SIZE], buf, (i - firstSector) * SECTOR_SIZE);
        i := i + 1;
      }
    }

    method Read(into: array<byte>, numBytes: int) returns (n: nat)
      requires Valid() && Sensible(hdr.numBytes, numBytes, seekPosition)
      requires numBytes <= into.Length
      modifies into, `seekPosition
      ensures n == Clipped(hdr.numBytes, numBytes, old(seekPosition))
      ensures n > 0 ==> into[..n] == Contents()[old(seekPosition)..old(seekPosition) + n]
      ensures into[n..] == old(into[n..])
      ensures seekPosition == old(seekPosition) + n
    {
      n := ReadAt(into, 0, numBytes, seekPosition);
      seekPosition := seekPosition + n;
    }

    method Write(from: array<byte>, numBytes: int) returns (n: nat)
      requires Valid() && Sensible(hdr.numBytes, numBytes, seekPosition)
      requires numBytes <= from.Length
      modifies disk.sectors, `seekPosition
      ensures n == Clipped(hdr.numBytes, numBytes, old(seekPosition))
      ensures if n == 0 then disk.Contents() == old(disk.Contents())
              else Written(old(disk.Contents()), disk.Contents(), hdr, old(seekPosition), from[..n])
      ensures seekPosition == old(seekPosition) + n
    {
      n := WriteAt(from, numBytes, seekPosition);
      seekPosition := seekPosition + n;
    }
  }
}
