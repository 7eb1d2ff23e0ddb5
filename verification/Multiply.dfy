/** machine/mipssim.cc (Mult): the double-length product by shifting and adding. */
module Multiplier {
  import opened Bytes
  import opened Words

  /** The double word hi:lo, both halves unsigned. */
  function Double(hi: word, lo: word): (d: nat)
  {
    hi * WORD + lo
  }

  /** Adding a double word to another with the carry of the source. */
  lemma AddWithCarry(hi: word, lo: word, bHi: word, bLo: word)
    requires Double(hi, lo) + Double(bHi, bLo) < WORD * WORD
    ensures var lo' := (lo + bLo) % WORD;
            var carried := (hi + if lo' < bLo then 1 else 0) % WORD;
            Double((carried + bHi) % WORD, lo') == Double(hi, lo) + Double(bHi, bLo)
  {
    assert (lo + bLo) % WORD == if lo + bLo < WORD then lo + bLo else lo + bLo - WORD;
  }

  /** Shifting a double word left by one, unless the top bit falls off. */
  lemma ShiftLeft(bHi: word, bLo: word)
    requires 2 * Double(bHi, bLo) < WORD * WORD
    ensures bHi < SIGN
    ensures Double(2 * bHi + (if bLo >= SIGN then 1 else 0), 2 * bLo % WORD) == 2 * Double(bHi, bLo)
  {
  }

  /** The two's complement of a double word. */
  lemma Negate(hi: word, lo: word)
    requires 0 < Double(hi, lo) <= SIGN * WORD
    ensures var lo' := (WORD - 1 - lo + 1) % WORD;
            var hi' := if lo' == 0 then (WORD - 1 - hi + 1) % WORD else WORD - 1 - hi;
            Signed(hi') * WORD + lo' == 0 - Double(hi, lo)
  {
  }

  lemma HalvesOfProduct(r: nat, b: nat)
    ensures r * b == (r / 2) * (2 * b) + (r % 2) * b
  {
    var q := r / 2;
    assert r == 2 * q + r % 2;
    assert (2 * q + r % 2) * b == q * (2 * b) + (r % 2) * b;
  }

  lemma Bounded(a: nat, b: nat, m: nat, n: nat)
    requires a <= m && b <= n
    ensures a * b <= m * n
  {
    assert a * b <= a * n <= m * n by {
      assert a * (n - b) >= 0;
      assert (m - a) * n >= 0;
    }
  }

  lemma AtLeastOne(r: nat, b: nat)
    requires r >= 1
    ensures r * b >= b
  {
  }

  /** The int a after some shifts, when `rest` is what is left of its bits and k bits are left to look at. */
  ghost predicate Shifted(a: int32, rest: nat, k: nat, negative: bool)
  {
    if negative then a == rest - Pow2(k) && rest < Pow2(k) && (k > 0 ==> Pow2(k) <= 2 * rest)
    else a == rest && (k > 0 ==> rest > 0) && rest < Pow2(k)
  }

  lemma ShiftedStart(a: int32)
    requires a != 0
    ensures Shifted(a, Unsigned(a), 32, a < 0)
  {
    WordWidth();
  }

  lemma ShiftedStep(a: int32, rest: nat, k: nat, negative: bool)
    requires Shifted(a, rest, k, negative) && k > 0
    ensures rest >= 1 && rest % 2 == a % 2
    ensures a == 1 ==> rest == 1
    ensures k > 1 && !(a == 1) ==> rest >= 2
    ensures !(a == 1) || negative ==> Shifted(a / 2, rest / 2, k - 1, negative)
  {
    assert Pow2(k) == 2 * Pow2(k - 1);
    if k == 1 {
      assert Pow2(0) == 1;
    }
  }

  /** One bit of a is done: `sum` is the part of the product added up so far. */
  ghost predicate PartOf(sum: nat, rest: nat, shifted: nat, product: nat)
  {
    sum + rest * shifted == product
  }

  lemma PartStep(sum: nat, rest: nat, shifted: nat, product: nat)
    requires PartOf(sum, rest, shifted, product) && rest >= 1
    ensures sum + shifted <= product
    ensures PartOf(sum + (if rest % 2 == 1 then shifted else 0), rest / 2, 2 * shifted, product)
    ensures rest >= 2 ==> 2 * shifted <= product
    ensures rest == 1 ==> sum + shifted == product
  {
    HalvesOfProduct(rest, shifted);
    AtLeastOne(rest, shifted);
    if rest >= 2 {
      AtLeastOne(rest / 2, 2 * shifted);
    }
  }

  method AddIn(hi: word, lo: word, bHi: word, bLo: word) returns (hi': word, lo': word)
    requires Double(hi, lo) + Double(bHi, bLo) < WORD * WORD
    ensures Double(hi', lo') == Double(hi, lo) + Double(bHi, bLo)
  {
    AddWithCarry(hi, lo, bHi, bLo);
    lo', hi' := (lo + bLo) % WORD, hi;
    if lo' < bLo {
      hi' := (hi' + 1) % WORD;
    }
    hi' := (hi' + bHi) % WORD;
  }

  method ShiftUp(bHi: word, bLo: word) returns (bHi': word, bLo': word)
    ensures 2 * Double(bHi, bLo) < WORD * WORD ==> Double(bHi', bLo') == 2 * Double(bHi, bLo)
  {
    if 2 * Double(bHi, bLo) < WORD * WORD {
      ShiftLeft(bHi, bLo);
    }
    bHi' := 2 * bHi % WORD;
    if bLo >= SIGN {
      bHi' := bHi' + 1;
    }
    bLo' := 2 * bLo % WORD;
  }

  /**
   * The main loop: it looks at a's bits one at a time and adds in a shifted b. The int a is shifted with
   * its sign, so for a negative a ones come in from the left and the early exit is never taken.
   */
  method ShiftAndAdd(a0: int32, b: int32) returns (hi: word, lo: word)
    requires a0 != 0
    ensures Double(hi, lo) == Unsigned(a0) * Unsigned(b)
  {
    hide Double, Shifted, PartOf, Unsigned;
    var a := a0;
    var bLo: word, bHi: word := Unsigned(b), 0;
    lo, hi := 0, 0;
    ghost var rest, product := Unsigned(a0), Unsigned(a0) * Unsigned(b);
    Begin(a0, b);
    var i := 0;
    while i < 32
      invariant 0 <= i <= 32 && product < WORD * WORD
      invariant i < 32 ==> PartOf(Double(hi, lo), rest, Double(bHi, bLo), product)
      invariant i == 32 ==> Double(hi, lo) == product
      invariant Shifted(a, rest, 32 - i, a0 < 0)
    {
      ShiftedStep(a, rest, 32 - i, a0 < 0);
      PartStep(Double(hi, lo), rest, Double(bHi, bLo), product);
      if a % 2 == 1 {
        hi, lo := AddIn(hi, lo, bHi, bLo);
        if a == 1 {
          break;
        }
      }
      if i == 31 {
        LastBit(a, rest, a0 < 0);
      }
      bHi, bLo := ShiftUp(bHi, bLo);
      a, rest, i := a / 2, rest / 2, i + 1;
    }
  }

  lemma Begin(a: int32, b: int32)
    requires a != 0
    ensures Unsigned(a) * Unsigned(b) < WORD * WORD
    ensures PartOf(Double(0, 0), Unsigned(a), Double(0, Unsigned(b)), Unsigned(a) * Unsigned(b))
    ensures Shifted(a, Unsigned(a), 32, a < 0)
  {
    Bounded(Unsigned(a), Unsigned(b), WORD - 1, WORD - 1);
    ShiftedStart(a);
  }

  /** Only one bit is left in the last round. */
  lemma LastBit(a: int32, rest: nat, negative: bool)
    requires Shifted(a, rest, 1, negative)
    ensures rest == 1
  {
  }

  /** What the two result registers hold. */
  function Product(hi: int32, lo: int32, signed: bool): (p: int)
  {
    (if signed then hi else Unsigned(hi)) * WORD + Unsigned(lo)
  }

  /** The product that MULT and MULTU are to give. */
  function Exact(a: int32, b: int32, signed: bool): (p: int)
  {
    if signed then a * b else Unsigned(a) * Unsigned(b)
  }

  /** The halves of a double word, whichever way it is read. */
  function High(p: int): (hi: int32)
  {
    Wrap(p / WORD)
  }

  function Low(p: int): (lo: int32)
  {
    Wrap(p)
  }

  lemma HalvesUnique(hi: int32, lo: int32, signed: bool)
    ensures High(Product(hi, lo, signed)) == hi && Low(Product(hi, lo, signed)) == lo
  {
    var h: int := if signed then hi else Unsigned(hi);
    assert (h * WORD + Unsigned(lo)) / WORD == h;
    assert (h * WORD + Unsigned(lo)) % WORD == Unsigned(lo);
    WrapKeeps(h * WORD + Unsigned(lo), lo);
    WrapKeeps(h, hi);
  }

  lemma WrapKeeps(x: int, y: int32)
    requires x % WORD == Unsigned(y)
    ensures Wrap(x) == y
  {
  }

  function Magnitude(x: int32): (m: nat)
    ensures m <= SIGN
  {
    if x < 0 then 0 - x else x
  }

  lemma ProductOfMagnitudes(a: int32, b: int32)
    requires a != 0 && b != 0
    ensures 0 < Magnitude(a) * Magnitude(b) <= SIGN * SIGN
    ensures a * b == if (a < 0) == (b < 0) then Magnitude(a) * Magnitude(b) else 0 - Magnitude(a) * Magnitude(b)
  {
    Bounded(Magnitude(a), Magnitude(b), SIGN, SIGN);
    AtLeastOne(Magnitude(a), Magnitude(b));
  }

  method Complement(hi: word, lo: word) returns (hi': word, lo': word)
    requires 0 < Double(hi, lo) <= SIGN * WORD
    ensures Signed(hi') * WORD + lo' == 0 - Double(hi, lo)
  {
    Negate(hi, lo);
    hi' := WORD - 1 - hi;
    lo' := WORD - 1 - lo;
    lo' := (lo' + 1) % WORD;
    if lo' == 0 {
      hi' := (hi' + 1) % WORD;
    }
  }

  /** The sign of the result, and the operands made positive; the most negative int stays as it is. */
  method Signs(a: int32, b: int32) returns (negative: bool, x: int32, y: int32)
    ensures negative <==> (a < 0) != (b < 0)
    ensures Unsigned(x) == Magnitude(a) && Unsigned(y) == Magnitude(b)
  {
    negative, x, y := false, a, b;
    if a < 0 {
      negative, x := !negative, Wrap(0 - a as int);
    }
    if b < 0 {
      negative, y := !negative, Wrap(0 - b as int);
    }
  }

  /** The exact double-length product for all operands, including the most negative int. */
  method Mult(a: int32, b: int32, signedArith: bool) returns (hi: int32, lo: int32)
    ensures Product(hi, lo, signedArith) == Exact(a, b, signedArith)
    ensures hi == High(Exact(a, b, signedArith)) && lo == Low(Exact(a, b, signedArith))
  {
    hi, lo := 0, 0;
    if a != 0 && b != 0 {
      var negative, x, y := false, a, b;
      if signedArith {
        negative, x, y := Signs(a, b);
        ProductOfMagnitudes(a, b);
      }
      var h, l := ShiftAndAdd(x, y);
      if negative {
        h, l := Complement(h, l);
      }
      hi, lo := Signed(h), Signed(l);
    }
    HalvesUnique(hi, lo, signedArith);
  }
}
