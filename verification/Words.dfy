/** 32-bit two's-complement arithmetic as the host's C++ `int` and `unsigned` do it. */
module Words {
  import opened Bytes

  const WORD := 0x1_0000_0000
  const SIGN := 0x8000_0000

  /** The low 32 bits of a number, as an int. */
  function Wrap(x: int): (r: int32)
  {
    (x + SIGN) % WORD - SIGN
  }

  function Unsigned(x: int32): (w: word)
  {
    if x < 0 then x + WORD else x
  }

  function Signed(w: word): (x: int32)
    ensures Unsigned(x) == w
  {
    if w < SIGN then w else w - WORD
  }

  function Pow2(k: nat): (p: nat)
    ensures p > 0
  {
    if k == 0 then 1 else 2 * Pow2(k - 1)
  }

  /** Bit k of w, that is `w & (1 << k)` is not zero. */
  predicate BitOf(w: nat, k: nat)
    decreases k
  {
    if k == 0 then w % 2 == 1 else BitOf(w / 2, k - 1)
  }

  /** A bitwise operator on the low n bits. */
  function Bitwise(f: (bool, bool) -> bool, x: nat, y: nat, n: nat): (r: nat)
    ensures r < Pow2(n)
  {
    if n == 0 then 0
    else 2 * Bitwise(f, x / 2, y / 2, n - 1) + if f(x % 2 == 1, y % 2 == 1) then 1 else 0
  }

  lemma {:induction false} BitwiseBits(f: (bool, bool) -> bool, x: nat, y: nat, n: nat, i: nat)
    requires i < n
    ensures BitOf(Bitwise(f, x, y, n), i) == f(BitOf(x, i), BitOf(y, i))
  {
    if i > 0 {
      BitwiseBits(f, x / 2, y / 2, n - 1, i - 1);
    }
  }

  lemma WordWidth()
    ensures Pow2(32) == 0x1_0000_0000
  {
    assert Pow2(8) == 256 by { assert Pow2(4) == 16; }
    assert Pow2(12) == 0x1000;
    assert Pow2(16) == 0x1_0000;
    assert Pow2(20) == 0x10_0000;
    assert Pow2(24) == 0x100_0000;
    assert Pow2(28) == 0x1000_0000;
  }

  function OnWords(f: (bool, bool) -> bool, x: int32, y: int32): (r: int32)
  {
    WordWidth();
    Signed(Bitwise(f, Unsigned(x), Unsigned(y), 32))
  }

  function And(x: int32, y: int32): (r: int32)
  {
    OnWords((a, b) => a && b, x, y)
  }

  function Or(x: int32, y: int32): (r: int32)
  {
    OnWords((a, b) => a || b, x, y)
  }

  function Xor(x: int32, y: int32): (r: int32)
  {
    OnWords((a, b) => a != b, x, y)
  }

  function Nor(x: int32, y: int32): (r: int32)
  {
    OnWords((a, b) => !(a || b), x, y)
  }

  /** The bits of the results of the logical instructions. */
  lemma LogicBits(x: int32, y: int32, i: nat)
    requires i < 32
    ensures BitOf(Unsigned(And(x, y)), i) == (BitOf(Unsigned(x), i) && BitOf(Unsigned(y), i))
    ensures BitOf(Unsigned(Or(x, y)), i) == (BitOf(Unsigned(x), i) || BitOf(Unsigned(y), i))
    ensures BitOf(Unsigned(Xor(x, y)), i) == (BitOf(Unsigned(x), i) != BitOf(Unsigned(y), i))
    ensures BitOf(Unsigned(Nor(x, y)), i) == !(BitOf(Unsigned(x), i) || BitOf(Unsigned(y), i))
  {
    hide BitOf, Bitwise;
    BitwiseBits((a, b) => a && b, Unsigned(x), Unsigned(y), 32, i);
    BitwiseBits((a, b) => a || b, Unsigned(x), Unsigned(y), 32, i);
    BitwiseBits((a, b) => a != b, Unsigned(x), Unsigned(y), 32, i);
    BitwiseBits((a, b) => !(a || b), Unsigned(x), Unsigned(y), 32, i);
  }
}
