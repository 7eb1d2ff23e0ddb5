/**
 * The synchronous disk and the on-disk file header of filesys/filehdr.h: a
 * header is one sector holding two integers and NumDirect sector numbers.
 */
module Headers {
  import opened Bytes

  const SECTOR_SIZE := 128
  const NUM_SECTORS := 1024
  const NUM_DIRECT := 30
  const MAX_FILE_SIZE := NUM_DIRECT * SECTOR_SIZE

  type Sector = s: seq<byte> | |s| == SECTOR_SIZE witness BLANK

  const BLANK: seq<byte> := seq(SECTOR_SIZE, i => 0)

  /** The contents of the whole disk. */
  type Image = d: seq<Sector> | |d| == NUM_SECTORS 
    witness seq<Sector>(NUM_SECTORS, i => BLANK)

  datatype HeaderFields = Header(numBytes: int32, numSectors: int32, dataSectors: seq<int32>)

  type Header = h: HeaderFields | |h.dataSectors| == NUM_DIRECT
    witness Header(0, 0, seq(NUM_DIRECT, i => 0))

  function EncodeHeader(h: Header): (s: Sector)
  {
    EncodeInts([h.numBytes, h.numSectors] + h.dataSectors)
  }

  function DecodeHeader(s: Sector): (h: Header)
  {
    var xs := DecodeInts(s, 2 + NUM_DIRECT);
    Header(xs[0], xs[1], xs[2..])
  }

  lemma HeaderRoundTrip(h: Header)
    ensures DecodeHeader(EncodeHeader(h)) == h
  {
    var xs := [h.numBytes, h.numSectors] + h.dataSectors;
    IntsRoundTrip(xs);
    assert DecodeInts(EncodeHeader(h), 2 + NUM_DIRECT) == xs;
    assert xs[2..] == h.dataSectors;
  }

  /** How many entries of the table are in use; a negative file size uses none. */
  function Used(h: Header): (n: nat)
  {
    if h.numSectors < 0 then 0 else h.numSectors
  }

  /** A header whose table describes its length by distinct sectors of the disk. */
  ghost predicate Mapped(h: Header)
  {
    && h.numSectors == DivRoundUp(h.numBytes, SECTOR_SIZE)
    && h.numSectors <= NUM_DIRECT
    && (forall i | 0 <= i < Used(h) :: 0 <= h.dataSectors[i] < NUM_SECTORS)
    && (forall i, j | 0 <= i < j < Used(h) :: h.dataSectors[i] != h.dataSectors[j])
  }

  function Length(h: Header): (n: nat)
  {
    if h.numBytes < 0 then 0 else h.numBytes
  }

  /** The bytes of the file that a header describes. */
  ghost function FileBytes(d: Image, h: Header): (b: seq<byte>)
    requires Mapped(h)
    ensures |b| == Length(h)
  {
    seq(Length(h), k requires 0 <= k < Length(h) => d[h.dataSectors[k / SECTOR_SIZE]][k % SECTOR_SIZE])
  }

  /** A file's bytes depend on its data sectors only. */
  lemma FileBytesFrame(d: Image, d': Image, h: Header)
    requires Mapped(h)
    requires forall i | 0 <= i < Used(h) :: d'[h.dataSectors[i]] == d[h.dataSectors[i]]
    ensures FileBytes(d', h) == FileBytes(d, h)
  {
  }

  /** filesys/synchdisk.cc seen by one caller at a time: whole sectors, read or written. */
  class SynchDisk {
    const sectors: array<Sector>

    ghost predicate Valid()
    {
      sectors.Length == NUM_SECTORS
    }

    ghost function Contents(): (d: Image)
      requires Valid()
      reads sectors
    {
      sectors[..]
    }

    constructor (data: Image)
      ensures Valid() && fresh(sectors) && Contents() == data
    {
      sectors := new Sector[NUM_SECTORS](i requires 0 <= i < NUM_SECTORS => data[i]);
    }

    method ReadSector(sector: int, into: array<byte>, at: nat)
      requires Valid() && 0 <= sector < NUM_SECTORS
      requires at + SECTOR_SIZE <= into.Length
      modifies into
      ensures into[..] == old(into[..at]) + Contents()[sector] + old(into[at + SECTOR_SIZE..])
    {
      var s := sectors[sector];
      forall k | 0 <= k < SECTOR_SIZE {
        into[at + k] := s[k];
      }
    }

    method WriteSector(sector: int, from: array<byte>, at: nat)
      requires Valid() && 0 <= sector < NUM_SECTORS
      requires at + SECTOR_SIZE <= from.Length
      modifies sectors
      ensures Contents() == old(Contents())[sector := from[at..at + SECTOR_SIZE]]
    {
      sectors[sector] := from[at..at + SECTOR_SIZE];
    }
  }
}

/** The in-memory file header of filesys/filehdr.cc. */
module FileHeaders {
  import opened Bytes
  import opened Headers
  import opened BitMaps

  /**
   * First-fit allocation: xs are clear bits of `bits` in increasing order, `bits'`
   * has exactly these added, and no bit below the last one is still clear.
   */
  ghost predicate Allotted(bits: seq<bool>, bits': seq<bool>, xs: seq<int>)
  {
    && |bits'| == |bits|
    && (forall i | 0 <= i < |xs| :: 0 <= xs[i] < |bits| && !bits[xs[i]])
    && (forall i, j | 0 <= i < j < |xs| :: xs[i] < xs[j])
    && (forall s | 0 <= s < |bits| :: bits'[s] <==> bits[s] || s in xs)
    && (forall s | 0 <= s < |bits| :: |xs| > 0 && s <= xs[|xs| - 1] ==> bits'[s])
  }

  lemma AllottedNone(bits: seq<bool>)
    ensures Allotted(bits, bits, [])
  {
  }

  lemma AllotNext(bits: seq<bool>, bits': seq<bool>, xs: seq<int>)
    requires Allotted(bits, bits', xs) && ClearCount(bits') > 0
    ensures var i := FirstClear(bits');
      i >= 0 && Allotted(bits, bits'[i := true], xs + [i]) && ClearCount(bits'[i := true]) == ClearCount(bits') - 1
  {
    FirstClearIffCount(bits');
    MarkCount(bits', FirstClear(bits'));
  }

  /** What Allocate does: it returns false, it runs over its table, or it returns true. */
  datatype AllocateResult = NoRoom | Overrun | Taken

  class FileHeader {
    var numBytes: int32
    var numSectors: int32
    const dataSectors: array<int32>

    ghost predicate Valid()
    {
      dataSectors.Length == NUM_DIRECT
    }

    ghost function Contents(): (h: Header)
      requires Valid()
      reads this, dataSectors
    {
      Header(numBytes, numSectors, dataSectors[..])
    }

    /** The source has no constructor: a new header holds what the memory held. */
    constructor (memory: Header)
      ensures Valid() && fresh(dataSectors) && Contents() == memory
    {
      numBytes, numSectors := memory.numBytes, memory.numSectors;
      dataSectors := new int32[NUM_DIRECT](i requires 0 <= i < NUM_DIRECT => memory.dataSectors[i]);
    }

    /**
     * The source does not compare the sector count with NumDirect.  When more sectors are available and asked
     * for than the table holds, its loop writes past the table, and nothing is said about this object and the map.
     */
    method Allocate(freeMap: BitMap, fileSize: int32) returns (r: AllocateResult)
      requires Valid() && freeMap.Valid() && freeMap.numBits <= 0x7fff_ffff
      requires freeMap.words as object != dataSectors
      modifies this, dataSectors, freeMap.words
      ensures r == NoRoom <==> ClearCount(old(freeMap.Contents())) < DivRoundUp(fileSize, SECTOR_SIZE)
      ensures r == Overrun <==> NUM_DIRECT < DivRoundUp(fileSize, SECTOR_SIZE) <= ClearCount(old(freeMap.Contents()))
      ensures r != Overrun ==> numBytes == fileSize && numSectors == DivRoundUp(fileSize, SECTOR_SIZE)
      ensures r == NoRoom ==> freeMap.Contents() == old(freeMap.Contents())
      ensures r == Taken ==> Used(Contents()) <= NUM_DIRECT
      ensures r == Taken ==> Allotted(old(freeMap.Contents()), freeMap.Contents(), Contents().dataSectors[..Used(Contents())])
    {
      numBytes := fileSize;
      numSectors := DivRoundUp(fileSize, SECTOR_SIZE);
      var clear := freeMap.NumClear();
      if clear < numSectors {
        return NoRoom;
      }
      var past := TakeSectors(freeMap, if numSectors < 0 then 0 else numSectors);
      return if past then Overrun else Taken;
    }

    /** The loop of Allocate, up to the point where it would write past the table. */
    method TakeSectors(freeMap: BitMap, n: nat) returns (past: bool)
      requires Valid() && freeMap.Valid() && freeMap.numBits <= 0x7fff_ffff
      requires freeMap.words as object != dataSectors && n <= ClearCount(freeMap.Contents())
      modifies dataSectors, freeMap.words
      ensures past <==> n > dataSectors.Length
      ensures !past ==> Allotted(old(freeMap.Contents()), freeMap.Contents(), dataSectors[..n])
    {
      hide Allotted, ClearCount, FirstClear, Bits;
      ghost var bits := freeMap.Contents();
      ghost var now, taken: seq<int> := bits, [];
      AllottedNone(bits);
      for i := 0 to n
        invariant i <= dataSectors.Length && now == freeMap.Contents() && dataSectors[..i] == taken
        invariant Allotted(bits, now, taken) && ClearCount(now) == ClearCount(bits) - i
      {
        AllotNext(bits, now, taken);
        var sector := freeMap.Find();
        if i == dataSectors.Length {
          return true;
        }
        dataSectors[i] := sector;
        now, taken := now[sector := true], taken + [sector];
      }
      return false;
    }

    method Deallocate(freeMap: BitMap)
      requires Valid() && freeMap.Valid() && Mapped(Contents()) && freeMap.numBits == NUM_SECTORS
      requires forall i | 0 <= i < Used(Contents()) :: freeMap.Contents()[dataSectors[i]]
      modifies freeMap.words
      ensures forall s | 0 <= s < NUM_SECTORS ::
          freeMap.Contents()[s] <==> old(freeMap.Contents())[s] && s !in dataSectors[..Used(Contents())]
    {
      var i := 0;
      while i < numSectors
        invariant 0 <= i <= Used(Contents())
        invariant forall s | 0 <= s < NUM_SECTORS ::
            freeMap.Contents()[s] <==> old(freeMap.Contents())[s] && s !in dataSectors[..i]
      {
        var marked := freeMap.Test(dataSectors[i]);
        assert marked;                      // the ASSERT of the source
        freeMap.Clear(dataSectors[i]);
        assert dataSectors[..i + 1] == dataSectors[..i] + [dataSectors[i]];
        i := i + 1;
      }
    }

    method FetchFrom(disk: SynchDisk, sector: int)
      requires Valid() && disk.Valid() && 0 <= sector < NUM_SECTORS
      modifies this, dataSectors
      ensures Contents() == DecodeHeader(disk.Contents()[sector])
    {
      var h := DecodeHeader(disk.sectors[sector]);
      numBytes, numSectors := h.numBytes, h.numSectors;
      forall i | 0 <= i < NUM_DIRECT {
        dataSectors[i] := h.dataSectors[i];
      }
    }

    method WriteBack(disk: SynchDisk, sector: int)
      requires Valid() && disk.Valid() && 0 <= sector < NUM_SECTORS
      modifies disk.sectors
      ensures disk.Contents() == old(disk.Contents())[sector := EncodeHeader(Contents())]
    {
      var s := EncodeHeader(Header(numBytes, numSectors, dataSectors[..]));
      var bytes := new byte[SECTOR_SIZE](i requires 0 <= i < SECTOR_SIZE => s[i]);
      assert bytes[0..SECTOR_SIZE] == s;
      disk.WriteSector(sector, bytes, 0);
    }
  }
}
