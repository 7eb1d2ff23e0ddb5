/** Shifts of an int, and what they do to its bits. */
module Shifts {
  import opened Bytes
  import opened Words

  /** Shifts of an int; shifting right keeps the sign. */
  function Shl(x: int32, k: int): (r: int32)
  {
    var wide: int := x;
    Wrap(wide * Pow2(k % 32))
  }

  function Sar(x: int32, k: int): (r: int32)
  {
    var wide: int := x;
    Wrap(wide / Pow2(k % 32))
  }

  /** The shift that brings in zeros from the left. */
  function Logical(x: int32, k: int): (r: int32)
  {
    HalfOrLess(Unsigned(x), Pow2(k % 32));
    Signed(Unsigned(x) / Pow2(k % 32))
  }

  lemma Scaled(p: nat, m: nat, q: nat)
    requires p >= m
    ensures p * q >= m * q
  {
    assert p * q == m * q + (p - m) * q;
  }

  lemma HalfOrLess(w: nat, p: nat)
    requires p >= 1
    ensures 0 <= w / p <= w
    ensures p >= 2 ==> 2 * (w / p) <= w
  {
    var q := w / p;
    assert w == p * q + w % p;
    Scaled(p, 1, q);
    if p >= 2 {
      Scaled(p, 2, q);
    }
  }

  // ----- bits -----

  lemma {:induction false} SameBitsSameNumber(v: nat, w: nat, n: nat)
    requires v < Pow2(n) && w < Pow2(n) && forall i | 0 <= i < n :: BitOf(v, i) == BitOf(w, i)
    ensures v == w
  {
    if n > 0 {
      assert BitOf(v, 0) == BitOf(w, 0);
      forall i | 0 <= i < n - 1
        ensures BitOf(v / 2, i) == BitOf(w / 2, i)
      {
        assert BitOf(v, i + 1) == BitOf(w, i + 1);
      }
      SameBitsSameNumber(v / 2, w / 2, n - 1);
    }
  }

  lemma {:induction false} LowBitsKept(w: nat, n: nat, i: nat)
    requires i < n
    ensures BitOf(w % Pow2(n), i) == BitOf(w, i)
  {
    HalfOfRest(w, Pow2(n - 1));
    if i > 0 {
      LowBitsKept(w / 2, n - 1, i - 1);
    }
  }

  lemma HalfOfRest(w: nat, p: nat)
    requires p >= 1
    ensures w % (2 * p) / 2 == w / 2 % p && w % (2 * p) % 2 == w % 2
  {
    var q, r := w / (2 * p), w % (2 * p);
    assert w == 2 * (p * q) + r;
    assert w / 2 == p * q + r / 2;
    UniqueQuotient(w / 2, p, q, r / 2);
  }

  /** A multiple of p that is not zero is at least p away from it. */
  lemma Multiples(p: nat, d: int)
    requires p >= 1
    ensures d >= 1 ==> p * d >= p
    ensures d <= -1 ==> p * d <= 0 - p
  {
    if d >= 1 {
      assert p * d == p + p * (d - 1);
    } else if d <= -1 {
      assert p * d == 0 - p - p * (0 - d - 1);
    }
  }

  lemma UniqueQuotient(x: int, p: nat, q: int, r: nat)
    requires p >= 1 && x == p * q + r && r < p
    ensures x / p == q && x % p == r
  {
    var a, b := x / p, x % p;
    assert x == p * a + b && 0 <= b < p;
    Multiples(p, a - q);
    assert p * (a - q) == p * a - p * q;
  }

  /** Adding a multiple of p changes no remainder. */
  lemma SameRemainder(x: int, p: nat, c: int)
    requires p >= 1
    ensures (x + p * c) % p == x % p
  {
    var q := x / p;
    assert x == p * q + x % p;
    assert p * (q + c) == p * q + p * c;
    UniqueQuotient(x + p * c, p, q + c, x % p);
  }

  lemma {:induction false} TimesPower(w: nat, k: nat, i: nat)
    ensures BitOf(w * Pow2(k), i) <==> i >= k && BitOf(w, i - k)
  {
    if k > 0 {
      var v := w * Pow2(k - 1);
      assert w * Pow2(k) == 2 * v;
      if i > 0 {
        TimesPower(w, k - 1, i - 1);
      }
    }
  }

  lemma UnsignedWrap(x: int)
    ensures Unsigned(Wrap(x)) == x % WORD
  {
  }

  /** The unsigned value of a left shift. */
  lemma ShlValue(x: int32, k: int)
    ensures Unsigned(Shl(x, k)) == Unsigned(x) * Pow2(k % 32) % WORD
  {
    hide Wrap, Pow2;
    var p, y: int := Pow2(k % 32), x;
    UnsignedWrap(y * p);
    if x < 0 {
      assert (y + WORD) * p == y * p + WORD * p;
      SameRemainder(y * p, WORD, p);
    }
  }

  /** Shifting left moves every bit up and brings in zeros. */
  lemma ShlBits(x: int32, k: int, i: nat)
    requires i < 32
    ensures BitOf(Unsigned(Shl(x, k)), i) <==> i >= k % 32 && BitOf(Unsigned(x), i - k % 32)
  {
    WordWidth();
    hide BitOf, Shl, Unsigned, Pow2;
    ShlValue(x, k);
    LowBitsKept(Unsigned(x) * Pow2(k % 32), 32, i);
    TimesPower(Unsigned(x), k % 32, i);
  }

  lemma {:induction false} TopBit(v: nat, n: nat)
    requires v < 2 * Pow2(n)
    ensures BitOf(v, n) <==> v >= Pow2(n)
  {
    if n > 0 {
      TopBit(v / 2, n - 1);
    }
  }

  lemma {:induction false} WithTopBit(v: nat, n: nat, i: nat)
    requires v < Pow2(n) && i <= n
    ensures BitOf(v + Pow2(n), i) <==> i == n || BitOf(v, i)
  {
    if n > 0 && i > 0 {
      assert (v + Pow2(n)) / 2 == v / 2 + Pow2(n - 1);
      WithTopBit(v / 2, n - 1, i - 1);
    }
  }

  lemma Pow31()
    ensures Pow2(31) == SIGN && Pow2(32) == WORD
  {
    WordWidth();
    assert Pow2(32) == 2 * Pow2(31);
  }

  /** One place to the right: every bit moves down and the top bit stays. */
  lemma HalfBits(x: int32, i: nat)
    requires i < 32
    ensures BitOf(Unsigned(x / 2), i) == BitOf(Unsigned(x), if i == 31 then 31 else i + 1)
  {
    Pow31();
    var w := Unsigned(x);
    TopBit(w, 31);
    if x < 0 {
      assert Unsigned(x / 2) == (w - SIGN + SIGN) / 2 + SIGN;
      assert Unsigned(x / 2) == w / 2 + SIGN;
      WithTopBit(w / 2, 31, i);
    } else {
      TopBit(w / 2, 31);
    }
    assert BitOf(w / 2, i) == BitOf(w, i + 1);
  }

  /** Shifting right moves every bit down and repeats the top bit. */
  lemma {:induction false} SarBits(x: int32, k: nat, i: nat)
    requires i < 32 && k < 32
    ensures BitOf(Unsigned(Sar(x, k)), i) == BitOf(Unsigned(x), if i + k < 32 then i + k else 31)
    decreases k
  {
    hide BitOf;
    if k > 0 {
      SarStep(x, k);
      SarBits(x / 2, k - 1, i);
      HalfBits(x, if i + k - 1 < 32 then i + k - 1 else 31);
    } else {
      assert Pow2(0) == 1;
    }
  }

  lemma SarStep(x: int32, k: nat)
    requires 0 < k < 32
    ensures Sar(x, k) == Sar(x / 2, k - 1)
  {
    hide Wrap;
    var p := Pow2(k - 1);
    assert k % 32 == k && (k - 1) % 32 == k - 1 && Pow2(k) == 2 * p;
    NestedHalves(x, p);
  }

  lemma NestedHalves(x: int, p: nat)
    requires p >= 1
    ensures x / (2 * p) == x / 2 / p
  {
    var a, b := x / 2, x / 2 / p;
    assert x == 2 * a + x % 2 && a == p * b + a % p;
    var r := 2 * (a % p) + x % 2;
    assert x == (2 * p) * b + r && 0 <= r < 2 * p;
    UniqueQuotient(x, 2 * p, b, r);
  }

  // ----- where the source departs from the architecture -----

  /** y has no bit that x has not. */
  ghost predicate Covers(x: int32, y: int32)
  {
    forall i | 0 <= i < 32 :: BitOf(Unsigned(y), i) ==> BitOf(Unsigned(x), i)
  }

  /** x | y is x exactly when y adds no bit. */
  lemma OrAbsorbs(x: int32, y: int32)
    ensures Or(x, y) == x <==> Covers(x, y)
  {
    if Or(x, y) == x {
      OrCovers(x, y);
    }
    if Covers(x, y) {
      CoveredOr(x, y);
    }
  }

  lemma OrCovers(x: int32, y: int32)
    ensures Covers(Or(x, y), y)
  {
    hide BitOf, Or;
    forall i | 0 <= i < 32
      ensures BitOf(Unsigned(y), i) ==> BitOf(Unsigned(Or(x, y)), i)
    {
      LogicBits(x, y, i);
    }
  }

  lemma CoveredOr(x: int32, y: int32)
    requires Covers(x, y)
    ensures Or(x, y) == x
  {
    hide BitOf, Or;
    forall i | 0 <= i < 32
      ensures BitOf(Unsigned(Or(x, y)), i) == BitOf(Unsigned(x), i)
    {
      LogicBits(x, y, i);
    }
    WordWidth();
    SameBitsSameNumber(Unsigned(Or(x, y)), Unsigned(x), 32);
    SameUnsigned(Or(x, y), x);
  }

  lemma SameUnsigned(x: int32, y: int32)
    requires Unsigned(x) == Unsigned(y)
    ensures x == y
  {
  }

  /** The arithmetic shift is the logical one exactly when the number is not negative or does not move. */
  lemma LogicalIff(x: int32, k: int)
    ensures Sar(x, k) == Logical(x, k) <==> x >= 0 || k % 32 == 0
  {
    hide Sar, Logical;
    if x >= 0 || k % 32 == 0 {
      SameShift(x, k);
    } else {
      SarSign(x, k % 32);
      SameAmount(x, k);
      LogicalSign(x, k);
    }
  }

  lemma SameShift(x: int32, k: int)
    requires x >= 0 || k % 32 == 0
    ensures Sar(x, k) == Logical(x, k)
  {
    var p := Pow2(k % 32);
    if x >= 0 {
      HalfOrLess(x, p);
    }
  }

  lemma SameAmount(x: int32, k: int)
    ensures Sar(x, k) == Sar(x, k % 32)
  {
  }

  lemma LogicalSign(x: int32, k: int)
    requires k % 32 > 0
    ensures Logical(x, k) >= 0
  {
    assert Pow2(k % 32) == 2 * Pow2(k % 32 - 1);
    HalfOrLess(Unsigned(x), Pow2(k % 32));
  }

  lemma SarSign(x: int32, k: nat)
    requires k < 32
    ensures Sar(x, k) < 0 <==> x < 0
  {
    hide BitOf, Sar;
    Pow31();
    SarBits(x, k, 31);
    TopBit(Unsigned(x), 31);
    TopBit(Unsigned(Sar(x, k)), 31);
  }
}
