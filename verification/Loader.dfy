/**
 * userprog/addrspace.cc (the constructor) and bin/noff.h: the pages that loading an object file
 * gives, whichever frames hold them.
 */
module Loader {
  import opened Bytes
  import opened Words
  import opened Translations

  const USER_STACK_SIZE := 1024
  const NOFF_MAGIC := 0xbadfad
  const HEADER_SIZE := 40

  datatype Segment = Segment(virtualAddr: int32, inFileAddr: int32, size: int32)

  datatype Noff = Noff(magic: int32, code: Segment, initData: Segment, uninitData: Segment)

  /** The header at the beginning of the file. */
  function HeaderOf(file: seq<byte>): (h: Noff)
    requires |file| >= HEADER_SIZE
  {
    var x := DecodeInts(file, 10);
    Noff(x[0], Segment(x[1], x[2], x[3]), Segment(x[4], x[5], x[6]), Segment(x[7], x[8], x[9]))
  }

  /** The header as ReadAt leaves it in the local variable, which held `stack`: a short file fills only its front. */
  function HeaderRead(file: seq<byte>, stack: seq<byte>): (h: Noff)
    requires |stack| == HEADER_SIZE
    ensures |file| >= HEADER_SIZE ==> h == HeaderOf(file)
  {
    if |file| >= HEADER_SIZE then HeaderOf(file) else HeaderOf(file + stack[|file|..])
  }

  /** The bytes of a header. */
  function EncodeNoff(h: Noff): (s: seq<byte>)
    ensures |s| == HEADER_SIZE
  {
    EncodeInts([h.magic, h.code.virtualAddr, h.code.inFileAddr, h.code.size,
      h.initData.virtualAddr, h.initData.inFileAddr, h.initData.size,
      h.uninitData.virtualAddr, h.uninitData.inFileAddr, h.uninitData.size])
  }

  lemma HeaderRoundTrip(h: Noff, file: seq<byte>)
    requires |file| >= HEADER_SIZE && file[..HEADER_SIZE] == EncodeNoff(h)
    ensures HeaderOf(file) == h
  {
    hide EncodeInts, EncodeInt, DecodeInt;
    var xs := [h.magic, h.code.virtualAddr, h.code.inFileAddr, h.code.size,
      h.initData.virtualAddr, h.initData.inFileAddr, h.initData.size,
      h.uninitData.virtualAddr, h.uninitData.inFileAddr, h.uninitData.size];
    IntsRoundTrip(xs);
    forall i | 0 <= i < 10
      ensures DecodeInts(file, 10)[i] == DecodeInts(EncodeNoff(h), 10)[i]
    {
      assert file[4 * i..4 * i + 4] == file[..HEADER_SIZE][4 * i..4 * i + 4];
    }
    assert DecodeInts(file, 10) == xs;
  }

  /** The size of the address space in pages: the division is one of ints, its result is unsigned. */
  function NumPages(h: Noff): (n: nat)
  {
    var code: int, data: int, bss: int := h.code.size, h.initData.size, h.uninitData.size;
    var pages := DivRoundUp(Wrap(code + data + bss + USER_STACK_SIZE), PAGE_SIZE);
    if pages < 0 then pages + WORD else pages
  }

  /** Code, data and 1024 bytes of stack, in pages of 128 bytes, and not one page more. */
  lemma PagesEnough(h: Noff)
    requires h.code.size >= 0 && h.initData.size >= 0 && h.uninitData.size >= 0
    requires h.code.size as int + h.initData.size + h.uninitData.size + 1024 < 0x8000_0000
    ensures var total := h.code.size as int + h.initData.size + h.uninitData.size + 1024;
            128 * (NumPages(h) - 1) < total <= 128 * NumPages(h)
  {
  }

  /** The space fits into memory exactly when these bytes do; a header with negative sizes can ask for no page at all. */
  lemma PagesFit(h: Noff)
    ensures var total := h.code.size as int + h.initData.size + h.uninitData.size + 1024;
            -0x8000_0000 <= total < 0x8000_0000 ==>
              && (NumPages(h) <= 128 <==> -128 < total <= 128 * 128)
              && (NumPages(h) == 0 <==> -128 < total <= 0)
  {
  }

  type Page = p: seq<byte> | |p| == PAGE_SIZE witness seq<byte>(PAGE_SIZE, i => 0)

  function ZeroPage(): (p: Page)
  {
    seq(PAGE_SIZE, i => 0)
  }

  /** What ReadAt finds of a page's worth of the file. */
  function Chunk(file: seq<byte>, pos: nat): (s: seq<byte>)
    ensures |s| <= PAGE_SIZE
  {
    if pos >= |file| then [] else if pos + PAGE_SIZE > |file| then file[pos..] else file[pos..pos + PAGE_SIZE]
  }

  /** ReadAt into a page: what lies behind the end of the file stays as it was. */
  function Over(page: Page, chunk: seq<byte>): (p: Page)
    requires |chunk| <= PAGE_SIZE
  {
    chunk + page[|chunk|..]
  }

  /** The number of rounds of a loading loop. */
  function Rounds(i: nat, limit: int): (k: nat)
  {
    if i < limit then (limit - i + PAGE_SIZE - 1) / PAGE_SIZE else 0
  }

  lemma RoundsStep(i: nat, limit: int)
    requires i < limit
    ensures Rounds(i, limit) == 1 + Rounds(i + PAGE_SIZE, limit)
  {
  }

  /** A loading loop: file offset i goes to virtual page j, page by page, up to the limit. */
  function LoadLoop(pages: seq<Page>, file: seq<byte>, base: int, i: nat, j: int, limit: int): (r: seq<Page>)
    requires i < limit ==> base + i >= 0 && j >= 0 && j + Rounds(i, limit) <= |pages|
    ensures |r| == |pages|
    decreases limit - i
  {
    if i >= limit then pages
    else
      RoundsStep(i, limit);
      LoadLoop(pages[j := Over(pages[j], Chunk(file, base + i))], file, base, i + PAGE_SIZE, j + 1, limit)
  }

  lemma {:induction false} LoadLoopAt(pages: seq<Page>, file: seq<byte>, base: int, i: nat, j: int, limit: int, p: nat)
    requires (i < limit ==> base + i >= 0 && j >= 0 && j + Rounds(i, limit) <= |pages|) && p < |pages|
    ensures LoadLoop(pages, file, base, i, j, limit)[p]
         == if i < limit && j <= p < j + Rounds(i, limit) then Over(pages[p], Chunk(file, base + i + PAGE_SIZE * (p - j))) else pages[p]
    decreases limit - i
  {
    hide Over, Chunk;
    if i < limit {
      RoundsStep(i, limit);
      var next := pages[j := Over(pages[j], Chunk(file, base + i))];
      LoadLoopAt(next, file, base, i + PAGE_SIZE, j + 1, limit, p);
      assert PAGE_SIZE * (p - j) == PAGE_SIZE + PAGE_SIZE * (p - (j + 1));
    }
  }

  // ----- the two loops of the constructor -----

  function FirstPage(s: Segment): (j: int)
  {
    DivRoundUp(s.virtualAddr, PAGE_SIZE)
  }

  /** Where the file offset stands after the loop over the code, which tests `i <= size`. */
  function AfterCode(h: Noff): (i: nat)
  {
    if h.code.size > 0 then PAGE_SIZE * Rounds(0, h.code.size + 1) else 0
  }

  /** The loops stay inside the page table. */
  predicate InTable(h: Noff, n: nat)
  {
    var code: int, data: int := h.code.size, h.initData.size;
    && (code > 0 ==> FirstPage(h.code) >= 0 && FirstPage(h.code) + Rounds(0, code + 1) <= n)
    && (data > 0 ==> code + data >= 0)
    && (data > 0 && Rounds(AfterCode(h), code + data) > 0 ==>
          FirstPage(h.initData) >= 0 && FirstPage(h.initData) + Rounds(AfterCode(h), code + data) <= n)
  }

  /** Something is read, from before the beginning of the file. */
  predicate BeforeFile(h: Noff)
  {
    h.code.inFileAddr < 0 && (h.code.size > 0 || (h.initData.size > 0 && h.code.size as int + h.initData.size > 0))
  }

  predicate InBounds(h: Noff, n: nat)
  {
    InTable(h, n) && !BeforeFile(h)
  }

  // ----- how the loops end -----

  /** Round k of a loop takes a page of the table and reads at a place in the file. */
  ghost predicate Good(base: int, from: nat, first: int, n: nat, k: nat)
  {
    0 <= first + k < n && base + from + PAGE_SIZE * k >= 0
  }

  /** Every round of a loop up to the limit is good. */
  ghost predicate Fine(base: int, from: nat, first: int, limit: int, n: nat)
  {
    forall k: nat | from + PAGE_SIZE * k < limit :: Good(base, from, first, n, k)
  }

  ghost predicate LeavesIn(base: int, from: nat, first: int, limit: int, n: nat, k: nat)
  {
    from + PAGE_SIZE * k < limit && !(0 <= first + k < n) && forall m: nat | m < k :: Good(base, from, first, n, m)
  }

  /** The first round that is not good takes a page outside the table. */
  ghost predicate Leaves(base: int, from: nat, first: int, limit: int, n: nat)
  {
    exists k: nat :: LeavesIn(base, from, first, limit, n, k)
  }

  /** The size of code and data as the comparison with an unsigned index sees it. */
  function DataLimit(h: Noff): (limit: nat)
  {
    (h.code.size as int + h.initData.size) % WORD
  }

  ghost predicate CodeFine(h: Noff, n: nat)
  {
    h.code.size > 0 ==> Fine(h.code.inFileAddr, 0, FirstPage(h.code), h.code.size as int + 1, n)
  }

  ghost predicate DataFine(h: Noff, n: nat)
  {
    h.initData.size > 0 ==> Fine(h.code.inFileAddr, AfterCode(h), FirstPage(h.initData), DataLimit(h), n)
  }

  /** The first page that is not good, if any, is outside the table. */
  ghost predicate LeavesTable(h: Noff, n: nat)
  {
    if CodeFine(h, n)
    then h.initData.size > 0 && Leaves(h.code.inFileAddr, AfterCode(h), FirstPage(h.initData), DataLimit(h), n)
    else Leaves(h.code.inFileAddr, 0, FirstPage(h.code), h.code.size as int + 1, n)
  }

  lemma LeavesAt(base: int, from: nat, first: int, limit: int, n: nat, k: nat)
    requires from + PAGE_SIZE * k < limit && !(0 <= first + k < n) && forall m: nat | m < k :: Good(base, from, first, n, m)
    ensures Leaves(base, from, first, limit, n) && !Fine(base, from, first, limit, n)
  {
    assert !Good(base, from, first, n, k) && LeavesIn(base, from, first, limit, n, k);
  }

  lemma ReadsBefore(base: int, from: nat, first: int, limit: int, n: nat, k: nat)
    requires from + PAGE_SIZE * k < limit && 0 <= first + k < n && base + from + PAGE_SIZE * k < 0
    requires forall m: nat | m < k :: Good(base, from, first, n, m)
    ensures !Leaves(base, from, first, limit, n) && !Fine(base, from, first, limit, n)
  {
    assert !Good(base, from, first, n, k);
    forall q: nat
      ensures !LeavesIn(base, from, first, limit, n, q)
    {
      assert q < k ==> Good(base, from, first, n, q);
    }
  }

  lemma AllGood(base: int, from: nat, first: int, limit: int, n: nat, k: nat)
    requires from + PAGE_SIZE * k >= limit && forall m: nat | m < k :: Good(base, from, first, n, m)
    ensures Fine(base, from, first, limit, n) && !Leaves(base, from, first, limit, n)
  {
    forall q: nat
      ensures !LeavesIn(base, from, first, limit, n, q)
    {
      assert q < k ==> Good(base, from, first, n, q);
    }
  }

  /** The pages after k rounds that read from position pos on. */
  ghost predicate SoFar(start: seq<Page>, pages: seq<Page>, file: seq<byte>, pos: int, first: int, k: nat)
  {
    && |pages| == |start|
    && forall p | 0 <= p < |start| ::
         pages[p] == if first <= p < first + k && pos + PAGE_SIZE * (p - first) >= 0
                     then Over(start[p], Chunk(file, pos + PAGE_SIZE * (p - first))) else start[p]
  }

  lemma SoFarStarts(start: seq<Page>, file: seq<byte>, pos: int, first: int)
    ensures SoFar(start, start, file, pos, first, 0)
  {
  }

  lemma SoFarStep(start: seq<Page>, pages: seq<Page>, file: seq<byte>, pos: int, first: int, k: nat)
    requires SoFar(start, pages, file, pos, first, k) && 0 <= first + k < |pages| && pos + PAGE_SIZE * k >= 0
    ensures var j := first + k; SoFar(start, pages[j := Over(pages[j], Chunk(file, pos + PAGE_SIZE * k))], file, pos, first, k + 1)
  {
    hide Over, Chunk;
  }

  lemma SoFarEnds(start: seq<Page>, pages: seq<Page>, file: seq<byte>, base: int, from: nat, first: int, limit: int)
    requires Fine(base, from, first, limit, |start|) && SoFar(start, pages, file, base + from, first, Rounds(from, limit))
    ensures from < limit ==> base + from >= 0 && first >= 0 && first + Rounds(from, limit) <= |start|
    ensures pages == LoadLoop(start, file, base, from, first, limit)
  {
    FineIff(base, from, first, limit, |start|);
    RoundsAre(from, limit, 0);
    hide Over, Chunk, LoadLoop, Rounds, Fine;
    forall p | 0 <= p < |start|
      ensures pages[p] == LoadLoop(start, file, base, from, first, limit)[p]
    {
      LoadLoopAt(start, file, base, from, first, limit, p);
    }
  }

  lemma RoundsAre(from: nat, limit: int, k: nat)
    ensures from + PAGE_SIZE * k < limit <==> k < Rounds(from, limit)
  {
  }

  lemma FineIff(base: int, from: nat, first: int, limit: int, n: nat)
    ensures Fine(base, from, first, limit, n)
       <==> (Rounds(from, limit) > 0 ==> base + from >= 0 && first >= 0 && first + Rounds(from, limit) <= n)
  {
    hide Rounds;
    forall k: nat
      ensures from + PAGE_SIZE * k < limit <==> k < Rounds(from, limit)
    {
      RoundsAre(from, limit, k);
    }
    if Fine(base, from, first, limit, n) && Rounds(from, limit) > 0 {
      assert Good(base, from, first, n, 0) && Good(base, from, first, n, Rounds(from, limit) - 1);
    }
  }

  /** In a table of at most 2^23 pages the loops are fine exactly when they stay in it and read in the file. */
  lemma InBoundsIff(h: Noff, n: nat)
    requires n < 0x80_0000
    ensures CodeFine(h, n) && DataFine(h, n) <==> InBounds(h, n)
  {
    CodeFineIff(h, n);
    DataFineIff(h, n);
    FirstRound(h);
    hide CodeFine, DataFine, FirstPage, Rounds, AfterCode;
  }

  lemma CodeFineIff(h: Noff, n: nat)
    ensures CodeFine(h, n) <==> (h.code.size > 0 ==>
              h.code.inFileAddr >= 0 && FirstPage(h.code) >= 0 && FirstPage(h.code) + Rounds(0, h.code.size as int + 1) <= n)
  {
    FineIff(h.code.inFileAddr, 0, FirstPage(h.code), h.code.size as int + 1, n);
    hide Fine, FirstPage;
  }

  lemma DataFineIff(h: Noff, n: nat)
    requires n < 0x80_0000
    ensures DataFine(h, n) <==> (h.initData.size > 0 ==>
              var sum := h.code.size as int + h.initData.size;
              && sum >= 0
              && (Rounds(AfterCode(h), sum) > 0 ==>
                    && h.code.inFileAddr as int + AfterCode(h) >= 0
                    && FirstPage(h.initData) >= 0 && FirstPage(h.initData) + Rounds(AfterCode(h), sum) <= n))
  {
    FineIff(h.code.inFileAddr, AfterCode(h), FirstPage(h.initData), DataLimit(h), n);
    hide Fine, FirstPage;
    var sum := h.code.size as int + h.initData.size;
    if h.initData.size > 0 && sum < 0 {
      assert AfterCode(h) == 0 && DataLimit(h) == sum + WORD;
      assert Rounds(0, DataLimit(h)) >= 0x80_0000;
    } else if h.initData.size > 0 {
      assert DataLimit(h) == sum;
    }
  }

  lemma FirstRound(h: Noff)
    ensures h.code.size <= 0 ==> AfterCode(h) == 0
    ensures AfterCode(h) >= 0
    ensures forall sum: int | sum > 0 :: Rounds(0, sum) > 0
    ensures forall sum: int | sum <= 0 :: Rounds(0, sum) == 0
  {
  }

  function LoadCode(h: Noff, file: seq<byte>, pages: seq<Page>): (r: seq<Page>)
    requires InBounds(h, |pages|)
    ensures |r| == |pages|
  {
    if h.code.size > 0 then LoadLoop(pages, file, h.code.inFileAddr, 0, FirstPage(h.code), h.code.size + 1) else pages
  }

  function LoadData(h: Noff, file: seq<byte>, pages: seq<Page>): (r: seq<Page>)
    requires InBounds(h, |pages|)
    ensures |r| == |pages|
  {
    var code: int, data: int := h.code.size, h.initData.size;
    if data > 0 then LoadLoop(pages, file, h.code.inFileAddr, AfterCode(h), FirstPage(h.initData), code + data) else pages
  }

  /** The pages of a new address space. */
  function Loaded(h: Noff, file: seq<byte>, n: nat): (r: seq<Page>)
    requires InBounds(h, n)
    ensures |r| == n
  {
    LoadData(h, file, LoadCode(h, file, seq(n, k => ZeroPage())))
  }

  // ----- when the image is right -----

  /** Code from address 0, the data behind it, and both one after the other in the file. */
  predicate Contiguous(h: Noff)
  {
    var code: int, data: int, bss: int := h.code.size, h.initData.size, h.uninitData.size;
    && 0 <= code && 0 <= data && 0 <= bss && code + data + bss + USER_STACK_SIZE < 0x8000_0000
    && h.code.virtualAddr == 0 && h.initData.virtualAddr == code
    && 0 <= h.code.inFileAddr && h.initData.inFileAddr == h.code.inFileAddr as int + code
  }

  /** The file's bytes for code and data, and zeros for the rest. */
  ghost predicate Right(h: Noff, file: seq<byte>)
    requires Contiguous(h)
  {
    ContiguousInBounds(h);
    forall v | 0 <= v < NumPages(h) * PAGE_SIZE :: ByteAt(Loaded(h, file, NumPages(h)), v) == Wanted(h, file, v)
  }

  function ByteAt(pages: seq<Page>, v: nat): (b: byte)
    requires v < |pages| * PAGE_SIZE
  {
    pages[v / PAGE_SIZE][v % PAGE_SIZE]
  }

  function Wanted(h: Noff, file: seq<byte>, v: nat): (b: byte)
    requires Contiguous(h)
  {
    var base: int, code: int, data: int := h.code.inFileAddr, h.code.size, h.initData.size;
    if v < code + data && base + v < |file| then file[base + v] else 0
  }

  lemma ContiguousInBounds(h: Noff)
    requires Contiguous(h)
    ensures InBounds(h, NumPages(h))
    ensures FirstPage(h.code) == 0
  {
    var code: int, data: int, bss: int := h.code.size, h.initData.size, h.uninitData.size;
    var total := code + data + bss + USER_STACK_SIZE;
    assert Wrap(total) == total;
    assert NumPages(h) * PAGE_SIZE >= total;
  }

  /** The pages that the two loops read when the code does not end at a page boundary. */
  function PagesRead(h: Noff): (k: nat)
    requires Contiguous(h)
  {
    var code: int, data: int := h.code.size, h.initData.size;
    var c, d := if code > 0 then Rounds(0, code + 1) else 0, if data > 0 then Rounds(0, code + data) else 0;
    if c > d then c else d
  }

  /** The loop over the data goes to the page at which the loop over the code stopped. */
  predicate Meets(h: Noff)
  {
    h.code.size <= 0 || h.code.size % PAGE_SIZE != 0 || h.initData.size <= PAGE_SIZE
  }

  lemma {:induction false} PageLoaded(h: Noff, file: seq<byte>, p: nat)
    requires Contiguous(h) && Meets(h) && p < NumPages(h)
    ensures InBounds(h, NumPages(h))
    ensures Loaded(h, file, NumPages(h))[p]
         == if p < PagesRead(h) then Over(ZeroPage(), Chunk(file, h.code.inFileAddr + PAGE_SIZE * p)) else ZeroPage()
  {
    hide Over, Chunk, LoadLoop, ZeroPage, NumPages, Rounds;
    ContiguousInBounds(h);
    var code: int, data: int, base := h.code.size, h.initData.size, h.code.inFileAddr;
    var zeros := seq(NumPages(h), k => ZeroPage());
    var first := LoadCode(h, file, zeros);
    if code > 0 {
      LoadLoopAt(zeros, file, base, 0, 0, code + 1, p);
    }
    if data > 0 {
      DataPages(h);
      RoundsAre(AfterCode(h), code + data, 0);
      LoadLoopAt(first, file, base, AfterCode(h), FirstPage(h.initData), code + data, p);
      assert Rounds(AfterCode(h), code + data) > 0 ==>
        PAGE_SIZE * p == AfterCode(h) + PAGE_SIZE * (p - FirstPage(h.initData));
    }
  }

  /** The two loops fit together. */
  lemma DataPages(h: Noff)
    requires Contiguous(h) && Meets(h) && h.initData.size > 0
    ensures Rounds(AfterCode(h), h.code.size + h.initData.size) > 0 ==> AfterCode(h) == PAGE_SIZE * FirstPage(h.initData)
    ensures Rounds(AfterCode(h), h.code.size + h.initData.size) > 0 ==>
              PagesRead(h) == FirstPage(h.initData) + Rounds(AfterCode(h), h.code.size + h.initData.size)
    ensures Rounds(AfterCode(h), h.code.size + h.initData.size) == 0 ==>
              PagesRead(h) == if h.code.size > 0 then Rounds(0, h.code.size + 1) else 0
    ensures h.code.size > 0 && Rounds(AfterCode(h), h.code.size + h.initData.size) > 0 ==> FirstPage(h.initData) == Rounds(0, h.code.size + 1)
  {
  }

  lemma OverZeros(file: seq<byte>, pos: nat, o: nat)
    requires o < PAGE_SIZE
    ensures Over(ZeroPage(), Chunk(file, pos))[o] == if pos + o < |file| then file[pos + o] else 0
  {
  }

  /** The pages read cover the code and the data. */
  lemma PagesReadCover(h: Noff)
    requires Contiguous(h)
    ensures h.code.size as int + h.initData.size <= PAGE_SIZE * PagesRead(h)
  {
  }

  /** The file ends with the data. */
  predicate EndsWithData(h: Noff, file: seq<byte>)
  {
    |file| == h.code.inFileAddr as int + h.code.size + h.initData.size
  }

  lemma ByteRight(h: Noff, file: seq<byte>, v: nat)
    requires Contiguous(h) && Meets(h) && EndsWithData(h, file) && v < NumPages(h) * PAGE_SIZE
    ensures InBounds(h, NumPages(h)) && ByteAt(Loaded(h, file, NumPages(h)), v) == Wanted(h, file, v)
  {
    hide Over, Chunk, ZeroPage, Loaded, PagesRead, InBounds, NumPages, Meets;
    var p, o, base: int := v / PAGE_SIZE, v % PAGE_SIZE, h.code.inFileAddr;
    assert v == PAGE_SIZE * p + o && p < NumPages(h);
    PagesReadCover(h);
    PageLoaded(h, file, p);
    OverZeros(file, base + PAGE_SIZE * p, o);
    ZeroPageAt(o);
  }

  lemma ImageRight(h: Noff, file: seq<byte>)
    requires Contiguous(h) && Meets(h) && EndsWithData(h, file)
    ensures Right(h, file)
  {
    ContiguousInBounds(h);
    hide Loaded, InBounds, NumPages, Meets, Contiguous, EndsWithData, ByteAt, Wanted;
    forall v | 0 <= v < NumPages(h) * PAGE_SIZE
      ensures ByteAt(Loaded(h, file, NumPages(h)), v) == Wanted(h, file, v)
    {
      ByteRight(h, file, v);
    }
  }

  lemma ZeroPageAt(o: nat)
    requires o < PAGE_SIZE
    ensures ZeroPage()[o] == 0
  {
  }

  /** An object file that the constructor accepts and loads by its header h. */
  ghost predicate IsFileOf(h: Noff, file: seq<byte>)
  {
    |file| >= HEADER_SIZE && HeaderOf(file) == h && EndsWithData(h, file)
  }

  /** A header that the constructor's assertions let through, with its segments behind it in the file. */
  predicate Loadable(h: Noff)
  {
    Contiguous(h) && h.magic == NOFF_MAGIC && h.code.inFileAddr >= HEADER_SIZE && NumPages(h) <= NUM_PHYS_PAGES
  }

  /** A file with this header whose only other byte that is not zero is its first data byte. */
  function Witness(h: Noff): (file: seq<byte>)
    requires Loadable(h)
    ensures EndsWithData(h, file)
  {
    var base: int, code: int, data: int := h.code.inFileAddr, h.code.size, h.initData.size;
    seq(base + code + data, k requires k >= 0 =>
      if k < HEADER_SIZE then EncodeNoff(h)[k] else if k == base + code then 1 else 0)
  }

  lemma WitnessIsFile(h: Noff)
    requires Loadable(h)
    ensures IsFileOf(h, Witness(h))
  {
    hide EncodeNoff, HeaderOf;
    assert Witness(h)[..HEADER_SIZE] == EncodeNoff(h);
    HeaderRoundTrip(h, Witness(h));
  }

  /** Otherwise the second data page is read over the first. */
  lemma ImageWrong(h: Noff)
    requires Loadable(h) && !Meets(h)
    ensures IsFileOf(h, Witness(h)) && !Right(h, Witness(h))
  {
    hide LoadLoop, InBounds, EncodeNoff, HeaderOf;
    WitnessIsFile(h);
    ContiguousInBounds(h);
    var code: int, data: int, base, file, n := h.code.size, h.initData.size, h.code.inFileAddr, Witness(h), NumPages(h);
    var q := FirstPage(h.initData);
    BadPages(h);
    var zeros := seq(n, k => ZeroPage());
    var first := LoadCode(h, file, zeros);
    LoadLoopAt(first, file, base, AfterCode(h), q, code + data, q);
    assert Loaded(h, file, n)[q] == Over(first[q], Chunk(file, base + AfterCode(h)));
    assert Chunk(file, base + AfterCode(h))[0] == 0;
    assert ByteAt(Loaded(h, file, n), code) == 0;
    assert Wanted(h, file, code) == 1;
  }

  lemma BadPages(h: Noff)
    requires Contiguous(h) && !Meets(h)
    ensures var q := FirstPage(h.initData);
            && q * PAGE_SIZE == h.code.size && AfterCode(h) == h.code.size as int + PAGE_SIZE
            && 0 <= q < NumPages(h) && Rounds(AfterCode(h), h.code.size as int + h.initData.size) > 0
  {
    var total: int := h.code.size as int + h.initData.size + h.uninitData.size + USER_STACK_SIZE;
    assert Wrap(total) == total;
    assert NumPages(h) * PAGE_SIZE >= total;
  }

  /**
   * Every object file with this header that ends with its data is loaded correctly exactly when the code
   * does not end at a page boundary or there is at most one page of data.
   */
  lemma ImageIff(h: Noff)
    requires Loadable(h)
    ensures (forall file | IsFileOf(h, file) :: Right(h, file)) <==> Meets(h)
  {
    if Meets(h) {
      forall file | IsFileOf(h, file)
        ensures Right(h, file)
      {
        ImageRight(h, file);
      }
    } else {
      ImageWrong(h);
    }
  }
}
