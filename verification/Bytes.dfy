/**
 * The host machine's view of memory: bytes, 32-bit words and 32-bit
 * two's-complement integers, and the little-endian byte images that the file
 * system obtains by casting a structure to `char *`.
 */
module Bytes {

  type byte = b: int | 0 <= b < 0x100

  type word = w: int | 0 <= w < 0x1_0000_0000

  type int32 = x: int | -0x8000_0000 <= x < 0x8000_0000

  /** `divRoundUp` of threads/utility.h; C++ division truncates toward zero. */
  function DivRoundUp(n: int, s: int): (q: int)
    requires s > 0
    ensures n > 0 ==> (q - 1) * s < n <= q * s
    ensures n <= 0 ==> q <= 0
  {
    if n >= 0 then n / s + (if n % s > 0 then 1 else 0)
    else -((-n) / s)
  }

  function EncodeWord(w: word): (s: seq<byte>)
    ensures |s| == 4
  {
    [w % 0x100, w / 0x100 % 0x100, w / 0x100 / 0x100 % 0x100, w / 0x100 / 0x100 / 0x100]
  }

  function DecodeWord(s: seq<byte>): (w: word)
    requires |s| == 4
  {
    var b0: int, b1: int, b2: int, b3: int := s[0], s[1], s[2], s[3];
    b0 + 0x100 * (b1 + 0x100 * (b2 + 0x100 * b3))
  }

  lemma WordRoundTrip(w: word)
    ensures DecodeWord(EncodeWord(w)) == w
  {
  }

  function EncodeInt(x: int32): (s: seq<byte>)
    ensures |s| == 4
  {
    EncodeWord(if x < 0 then x + 0x1_0000_0000 else x)
  }

  function DecodeInt(s: seq<byte>): (x: int32)
    requires |s| == 4
  {
    var w := DecodeWord(s);
    if w < 0x8000_0000 then w else w - 0x1_0000_0000
  }

  lemma IntRoundTrip(x: int32)
    ensures DecodeInt(EncodeInt(x)) == x
  {
    WordRoundTrip(if x < 0 then x + 0x1_0000_0000 else x);
  }

  /** The bytes of an array, each element being laid out by `code` in `width` bytes. */
  function Concat<T(!new)>(xs: seq<T>, width: nat, code: T -> seq<byte>): (s: seq<byte>)
    requires forall x: T :: |code(x)| == width
    ensures |s| == width * |xs|
  {
    if |xs| == 0 then [] else Concat(xs[..|xs| - 1], width, code) + code(xs[|xs| - 1])
  }

  lemma Slot(width: nat, i: nat, n: nat)
    requires i < n
    ensures 0 <= width * i && width * i + width <= width * n
  {
    assert width * n == width * i + width + width * (n - i - 1);
  }

  lemma {:induction false} ConcatAt<T(!new)>(xs: seq<T>, width: nat, code: T -> seq<byte>, i: nat)
    requires forall x: T :: |code(x)| == width
    requires i < |xs|
    ensures 0 <= width * i && width * i + width <= width * |xs|
    ensures Concat(xs, width, code)[width * i..width * i + width] == code(xs[i])
  {
    var m := |xs| - 1;
    Slot(width, i, |xs|);
    if i < m {
      Slot(width, i, m);
      ConcatAt(xs[..m], width, code, i);
      var front := Concat(xs[..m], width, code);
      assert Concat(xs, width, code) == front + code(xs[m]);
      assert (front + code(xs[m]))[width * i..width * i + width] == front[width * i..width * i + width];
    }
  }

  function EncodeWords(ws: seq<word>): (s: seq<byte>)
    ensures |s| == 4 * |ws|
  {
    Concat(ws, 4, EncodeWord)
  }

  function DecodeWords(s: seq<byte>, n: nat): (ws: seq<word>)
    requires 4 * n <= |s|
    ensures |ws| == n
  {
    seq(n, i requires 0 <= i < n => DecodeWord(s[4 * i..4 * i + 4]))
  }

  lemma SamePiece(s: seq<byte>, file: seq<byte>, a: nat, b: nat)
    requires |s| <= |file| && s == file[..|s|] && a <= b <= |s|
    ensures s[a..b] == file[a..b]
  {
    assert file[..|s|][a..b] == file[a..b];
  }

  /** Words are in the first bytes of their file. */
  lemma SameWords(s: seq<byte>, file: seq<byte>, n: nat)
    requires |s| == 4 * n <= |file| && s == file[..|s|]
    ensures DecodeWords(s, n) == DecodeWords(file, n)
  {
    hide DecodeWord;
    forall i | 0 <= i < n
      ensures DecodeWords(s, n)[i] == DecodeWords(file, n)[i]
    {
      SamePiece(s, file, 4 * i, 4 * i + 4);
    }
  }

  lemma WordsRoundTrip(ws: seq<word>)
    ensures DecodeWords(EncodeWords(ws), |ws|) == ws
  {
    hide EncodeWord, DecodeWord, Concat;
    forall i | 0 <= i < |ws|
      ensures DecodeWords(EncodeWords(ws), |ws|)[i] == ws[i]
    {
      ConcatAt(ws, 4, EncodeWord, i);
      WordRoundTrip(ws[i]);
    }
  }

  function EncodeInts(xs: seq<int32>): (s: seq<byte>)
    ensures |s| == 4 * |xs|
  {
    Concat(xs, 4, EncodeInt)
  }

  function DecodeInts(s: seq<byte>, n: nat): (xs: seq<int32>)
    requires 4 * n <= |s|
    ensures |xs| == n
  {
    seq(n, i requires 0 <= i < n => DecodeInt(s[4 * i..4 * i + 4]))
  }

  lemma IntsRoundTrip(xs: seq<int32>)
    ensures DecodeInts(EncodeInts(xs), |xs|) == xs
  {
    hide EncodeInt, DecodeInt, Concat;
    forall i | 0 <= i < |xs|
      ensures DecodeInts(EncodeInts(xs), |xs|)[i] == xs[i]
    {
      ConcatAt(xs, 4, EncodeInt, i);
      IntRoundTrip(xs[i]);
    }
  }

  /** `bcopy`: copy n bytes between two buffers, each given by an array and an offset. */
  method CopyBytes(from: array<byte>, fromAt: nat, to: array<byte>, toAt: nat, n: nat)
    requires from != to
    requires fromAt + n <= from.Length && toAt + n <= to.Length
    modifies to
    ensures to[..] == old(to[..toAt]) + from[fromAt..fromAt + n] + old(to[toAt + n..])
  {
    forall k | 0 <= k < n {
      to[toAt + k] := from[fromAt + k];
    }
  }
}
