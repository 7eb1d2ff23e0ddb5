/**
 * userprog/bitmap.cc on one array of 32-bit words.  The bit operations are
 * specified against the sequence of booleans that the words stand for.
 */
module BitMaps {
  import opened Bytes
  import opened Words
  import opened OpenFiles

  const BITS_IN_WORD := 32

  // ----- single words -----

  /** `w | (1 << k)` */
  function OrBit(w: nat, k: nat): (r: nat)
    decreases k
  {
    if k == 0 then w / 2 * 2 + 1 else OrBit(w / 2, k - 1) * 2 + w % 2
  }

  /** `w & ~(1 << k)` */
  function AndNotBit(w: nat, k: nat): (r: nat)
    decreases k
  {
    if k == 0 then w / 2 * 2 else AndNotBit(w / 2, k - 1) * 2 + w % 2
  }

  lemma {:induction false} OrBitOf(w: nat, k: nat, j: nat)
    ensures BitOf(OrBit(w, k), j) <==> j == k || BitOf(w, j)
    decreases k
  {
    if k > 0 && j > 0 {
      OrBitOf(w / 2, k - 1, j - 1);
      assert OrBit(w, k) / 2 == OrBit(w / 2, k - 1);
    }
  }

  lemma {:induction false} AndNotBitOf(w: nat, k: nat, j: nat)
    ensures BitOf(AndNotBit(w, k), j) <==> j != k && BitOf(w, j)
    decreases k
  {
    if k > 0 && j > 0 {
      AndNotBitOf(w / 2, k - 1, j - 1);
      assert AndNotBit(w, k) / 2 == AndNotBit(w / 2, k - 1);
    }
  }

  /** Neither operation leaves the width of the word. */
  lemma {:induction false} BitOpsKeepWidth(w: nat, k: nat, width: nat)
    requires k < width && w < Pow2(width)
    ensures OrBit(w, k) < Pow2(width) && AndNotBit(w, k) < Pow2(width)
    decreases k
  {
    assert Pow2(width) == 2 * Pow2(width - 1) && w / 2 < Pow2(width - 1);
    if k > 0 {
      hide Pow2;
      BitOpsKeepWidth(w / 2, k - 1, width - 1);
    }
  }

  // ----- the map as a sequence of bits -----

  function NumWords(n: nat): (m: nat)
    ensures forall i | 0 <= i < n :: i / BITS_IN_WORD < m
  {
    DivRoundUp(n, BITS_IN_WORD)
  }

  function Bits(ws: seq<word>, n: nat): (bits: seq<bool>)
    requires |ws| == NumWords(n)
    ensures |bits| == n
  {
    seq(n, i requires 0 <= i < n => BitOf(ws[i / BITS_IN_WORD], i % BITS_IN_WORD))
  }

  lemma MarkBits(ws: seq<word>, n: nat, which: nat)
    requires |ws| == NumWords(n) && which < n
    ensures OrBit(ws[which / BITS_IN_WORD], which % BITS_IN_WORD) < 0x1_0000_0000
    ensures Bits(ws[which / BITS_IN_WORD := OrBit(ws[which / BITS_IN_WORD], which % BITS_IN_WORD)], n)
         == Bits(ws, n)[which := true]
  {
    var q, k := which / BITS_IN_WORD, which % BITS_IN_WORD;
    WordWidth();
    BitOpsKeepWidth(ws[q], k, 32);
    forall j: nat
      ensures BitOf(OrBit(ws[q], k), j) <==> j == k || BitOf(ws[q], j)
    {
      OrBitOf(ws[q], k, j);
    }
  }

  lemma ClearBits(ws: seq<word>, n: nat, which: nat)
    requires |ws| == NumWords(n) && which < n
    ensures AndNotBit(ws[which / BITS_IN_WORD], which % BITS_IN_WORD) < 0x1_0000_0000
    ensures Bits(ws[which / BITS_IN_WORD := AndNotBit(ws[which / BITS_IN_WORD], which % BITS_IN_WORD)], n)
         == Bits(ws, n)[which := false]
  {
    var q, k := which / BITS_IN_WORD, which % BITS_IN_WORD;
    WordWidth();
    BitOpsKeepWidth(ws[q], k, 32);
    forall j: nat
      ensures BitOf(AndNotBit(ws[q], k), j) <==> j != k && BitOf(ws[q], j)
    {
      AndNotBitOf(ws[q], k, j);
    }
  }

  // ----- searching and counting -----

  /** The least clear position, or -1 when every bit is set. */
  ghost predicate IsFirstClear(bits: seq<bool>, r: int)
  {
    if r == -1 then forall i | 0 <= i < |bits| :: bits[i]
    else 0 <= r < |bits| && !bits[r] && forall i | 0 <= i < r :: bits[i]
  }

  function FirstClear(bits: seq<bool>): (r: int)
    ensures IsFirstClear(bits, r)
  {
    FirstClearFrom(bits, 0)
  }

  function FirstClearFrom(bits: seq<bool>, from: nat): (r: int)
    requires from <= |bits|
    requires forall i | 0 <= i < from :: bits[i]
    ensures IsFirstClear(bits, r)
    decreases |bits| - from
  {
    if from == |bits| then -1
    else if !bits[from] then from
    else FirstClearFrom(bits, from + 1)
  }

  /** The number of clear bits. */
  function ClearCount(bits: seq<bool>): (n: nat)
    ensures n <= |bits|
  {
    if |bits| == 0 then 0
    else ClearCount(bits[..|bits| - 1]) + (if bits[|bits| - 1] then 0 else 1)
  }

  /** Marking a clear bit takes exactly one from the count. */
  lemma {:induction false} MarkCount(bits: seq<bool>, i: nat)
    requires i < |bits| && !bits[i]
    ensures ClearCount(bits[i := true]) == ClearCount(bits) - 1
  {
    var m := |bits| - 1;
    if i < m {
      assert bits[i := true][..m] == bits[..m][i := true];
      MarkCount(bits[..m], i);
    } else {
      assert bits[i := true][..m] == bits[..m];
    }
  }

  lemma {:induction false} ZeroCount(bits: seq<bool>)
    ensures ClearCount(bits) == 0 <==> forall i | 0 <= i < |bits| :: bits[i]
  {
    if |bits| > 0 {
      var m := |bits| - 1;
      ZeroCount(bits[..m]);
      assert forall i | 0 <= i < m :: bits[..m][i] == bits[i];
    }
  }

  lemma FirstClearIffCount(bits: seq<bool>)
    ensures FirstClear(bits) == -1 <==> ClearCount(bits) == 0
  {
    ZeroCount(bits);
  }

  class BitMap {
    const numBits: nat
    const words: array<word>

    ghost predicate Valid()
    {
      words.Length == NumWords(numBits)
    }

    ghost function Contents(): (bits: seq<bool>)
      requires Valid()
      reads words
      ensures |bits| == numBits
    {
      Bits(words[..], numBits)
    }

    constructor (nitems: nat)
      ensures Valid() && fresh(words) && numBits == nitems
      ensures Contents() == seq(nitems, i => false)
    {
      numBits := nitems;
      words := new word[NumWords(nitems)];
      new;
      for i := 0 to nitems
        invariant forall j | 0 <= j < i :: !Contents()[j]
      {
        Clear(i);
      }
    }

    method Mark(which: nat)
      requires Valid() && which < numBits
      modifies words
      ensures Contents() == old(Contents())[which := true]
    {
      MarkBits(words[..], numBits, which);
      words[which / BITS_IN_WORD] := OrBit(words[which / BITS_IN_WORD], which % BITS_IN_WORD);
    }

    method Clear(which: nat)
      requires Valid() && which < numBits
      modifies words
      ensures Contents() == old(Contents())[which := false]
    {
      ClearBits(words[..], numBits, which);
      words[which / BITS_IN_WORD] := AndNotBit(words[which / BITS_IN_WORD], which % BITS_IN_WORD);
    }

    method Test(which: nat) returns (r: bool)
      requires Valid() && which < numBits
      ensures r == Contents()[which]
    {
      r := BitOf(words[which / BITS_IN_WORD], which % BITS_IN_WORD);
    }

    method Find() returns (r: int)
      requires Valid()
      modifies words
      ensures r == FirstClear(old(Contents()))
      ensures Contents() == if r == -1 then old(Contents()) else old(Contents())[r := true]
    {
      for i := 0 to numBits
        invariant Contents() == old(Contents())
        invariant forall j | 0 <= j < i :: Contents()[j]
      {
        var marked := Test(i);
        if !marked {
          Mark(i);
          return i;
        }
      }
      return -1;
    }

    method NumClear() returns (count: nat)
      requires Valid()
      ensures count == ClearCount(Contents())
    {
      count := 0;
      ghost var bits := Contents();
      for i := 0 to numBits
        invariant count == ClearCount(bits[..i])
      {
        var marked := Test(i);
        assert bits[..i + 1][..i] == bits[..i];
        if !marked {
          count := count + 1;
        }
      }
      assert bits[..numBits] == bits;
    }

    method FetchFrom(file: OpenFile)
      requires Valid() && file.Valid() && 4 * words.Length <= file.hdr.numBytes
      modifies words
      ensures Contents() == Bits(DecodeWords(file.Contents(), NumWords(numBits)), numBits)
    {
      var bytes := new byte[4 * words.Length];
      var n := file.ReadAt(bytes, 0, 4 * words.Length, 0);
      hide DecodeWords;
      assert bytes[..] == bytes[0..0 + n];
      assert bytes[..] == file.Contents()[..n];
      SameWords(bytes[..], file.Contents(), words.Length);
      var ws := DecodeWords(bytes[..], words.Length);
      forall i | 0 <= i < words.Length {
        words[i] := ws[i];
      }
      assert words[..] == ws;
    }

    method WriteBack(file: OpenFile)
      requires Valid() && file.Valid() && 4 * words.Length <= file.hdr.numBytes
      requires numBits > 0
      modifies file.disk.sectors
      ensures Written(old(file.disk.Contents()), file.disk.Contents(), file.hdr, 0, EncodeWords(words[..]))
    {
      var all := EncodeWords(words[..]);
      var bytes := new byte[|all|](i requires 0 <= i < |all| => all[i]);
      assert bytes[..] == all;
      var n := file.WriteAt(bytes, |all|, 0);
      assert bytes[..n] == all;
    }
  }
}
