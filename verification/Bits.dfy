/** Powers of two and the bit operations of C on non-negative integers.  A left shift is a
    multiplication by Pow2, and counting leading zeros of a 64-bit word is 64 minus BitLength. */
module Bits {

  const INT64_MAX := 0x7FFF_FFFF_FFFF_FFFF
  const INT64_MIN := -0x8000_0000_0000_0000
  const TWO_TO_64 := 0x1_0000_0000_0000_0000

  type Int64 = x: int | INT64_MIN <= x <= INT64_MAX

  /** The value of an int64 variable after a computation whose exact result is x, when the
      hardware (or the atomic instruction) wraps around. */
  function Wrap64(x: int): (r: int)
    ensures INT64_MIN <= r <= INT64_MAX
    ensures INT64_MIN <= x <= INT64_MAX ==> r == x
  {
    (x - INT64_MIN) % TWO_TO_64 + INT64_MIN
  }

  /** It is the int64 that differs from x by a multiple of 2^64. */
  lemma Wrap64Congruent(x: int, y: Int64)
    ensures y == Wrap64(x) <==> (y - x) % TWO_TO_64 == 0
  {
  }

  function Pow2(n: nat): (p: nat)
    ensures p >= 1
  {
    if n == 0 then 1 else 2 * Pow2(n - 1)
  }

  function Pow10(n: nat): (p: nat)
    ensures p >= 1
  {
    if n == 0 then 1 else 10 * Pow10(n - 1)
  }

  lemma {:induction false} Pow2Add(a: nat, b: nat)
    ensures Pow2(a + b) == Pow2(a) * Pow2(b)
  {
    if b != 0 {
      Pow2Add(a, b - 1);
      assert Pow2(a) * Pow2(b) == 2 * (Pow2(a) * Pow2(b - 1));
    }
  }

  lemma {:induction false} Pow2Increasing(a: nat, b: nat)
    requires a < b
    ensures 2 * Pow2(a) <= Pow2(b)
  {
    if a + 1 < b {
      Pow2Increasing(a, b - 1);
    }
  }

  /** 64 - clz(n): the number of bits up to and including the highest set bit. */
  function BitLength(n: nat): nat {
    if n == 0 then 0 else 1 + BitLength(n / 2)
  }

  lemma {:induction false} BitLengthBounds(n: nat)
    ensures n < Pow2(BitLength(n))
    ensures n > 0 ==> BitLength(n) > 0 && Pow2(BitLength(n) - 1) <= n
  {
    if n != 0 {
      BitLengthBounds(n / 2);
    }
  }

  lemma BitLengthUnique(n: nat, k: nat)
    requires k > 0 && Pow2(k - 1) <= n < Pow2(k)
    ensures BitLength(n) == k
  {
    BitLengthBounds(n);
    var b := BitLength(n);
    if b < k {
      if b < k - 1 { Pow2Increasing(b, k - 1); }
    } else if k < b {
      if k < b - 1 { Pow2Increasing(k, b - 1); }
    }
  }

  function BitOr(a: nat, b: nat): nat {
    if a == 0 then b
    else if b == 0 then a
    else 2 * BitOr(a / 2, b / 2) + (if a % 2 == 1 || b % 2 == 1 then 1 else 0)
  }

  lemma {:induction false} BitLengthOr(a: nat, b: nat)
    ensures BitLength(BitOr(a, b)) == if BitLength(a) < BitLength(b) then BitLength(b) else BitLength(a)
  {
    if a != 0 && b != 0 {
      BitLengthOr(a / 2, b / 2);
      assert BitOr(a, b) / 2 == BitOr(a / 2, b / 2);
      OrPositive(a, b);
    }
  }

  lemma {:induction false} OrPositive(a: nat, b: nat)
    requires a > 0
    ensures BitOr(a, b) > 0
  {
    if b != 0 && a / 2 > 0 {
      OrPositive(a / 2, b / 2);
    }
  }

  /** v >> k */
  function Shr(v: nat, k: nat): nat {
    if k == 0 then v else Shr(v / 2, k - 1)
  }

  /** v & (2^k - 1) */
  function LowBits(v: nat, k: nat): nat {
    if k == 0 then 0 else 2 * LowBits(v / 2, k - 1) + v % 2
  }

  lemma {:induction false} ShiftSplit(v: nat, k: nat)
    ensures LowBits(v, k) < Pow2(k)
    ensures v == Shr(v, k) * Pow2(k) + LowBits(v, k)
  {
    if k != 0 {
      ShiftSplit(v / 2, k - 1);
      MulAssoc(Shr(v, k), 2, Pow2(k - 1));
    }
  }

  lemma MulAssoc(x: int, y: int, z: int)
    ensures x * (y * z) == y * (x * z)
  {
  }

  lemma MulMonotone(x: int, y: int, d: nat)
    requires x <= y
    ensures x * d <= y * d
  {
  }

  lemma Successor(x: int, d: int)
    ensures (x + 1) * d == x * d + d
  {
  }

  /** Shifted part and remainder are determined by v == q * 2^k + r with r in range. */
  lemma ShiftUnique(v: nat, k: nat, q: nat, r: nat)
    requires r < Pow2(k) && v == q * Pow2(k) + r
    ensures Shr(v, k) == q && LowBits(v, k) == r
  {
    ShiftSplit(v, k);
    QuotientUnique(Pow2(k), q, r, Shr(v, k), LowBits(v, k));
  }

  lemma QuotientUnique(d: nat, q: nat, r: nat, q': nat, r': nat)
    requires r < d && r' < d && q * d + r == q' * d + r'
    ensures q == q' && r == r'
  {
    if q < q' {
      MulMonotone(q + 1, q', d);
      Successor(q, d);
    } else if q' < q {
      MulMonotone(q' + 1, q, d);
      Successor(q', d);
    }
  }

  /** Bounds of a value in multiples of 2^k are bounds of the shifted value. */
  lemma ShiftBounds(v: nat, k: nat, a: nat, b: nat)
    requires a * Pow2(k) <= v < b * Pow2(k)
    ensures a <= Shr(v, k) < b
  {
    ShiftSplit(v, k);
    var q, d := Shr(v, k), Pow2(k);
    Successor(q, d);
    if q < a {
      MulMonotone(q + 1, a, d);
    } else if b <= q {
      MulMonotone(b, q, d);
    }
  }

  /** Or-ing a number below 2^k with a multiple of 2^k adds the two. */
  lemma {:induction false} BitOrDisjoint(a: nat, b: nat, k: nat)
    requires a < Pow2(k)
    ensures BitOr(a, b * Pow2(k)) == a + b * Pow2(k)
  {
    if a != 0 && b != 0 {
      var p := Pow2(k - 1);
      assert b * Pow2(k) == 2 * (b * p);
      BitOrDisjoint(a / 2, b, k - 1);
    }
  }

  lemma {:induction false} BitOrCommutes(a: nat, b: nat)
    ensures BitOr(a, b) == BitOr(b, a)
  {
    if a != 0 && b != 0 { BitOrCommutes(a / 2, b / 2); }
  }

  lemma DivideTwice(v: nat, d: nat, e: nat)
    requires d > 0 && e > 0
    ensures d * e > 0 && v / d / e == v / (d * e)
  {
    Positive(d, e);
    DivisionSplit(v, d);
    DivisionSplit(v / d, e);
    DivisionSplit(v, d * e);
    RecombinedBounds(v, d, e, v / d / e, v / d % e, v % d);
    QuotientUnique(d * e, v / d / e, v / d % e * d + v % d, v / (d * e), v % (d * e));
  }

  lemma DivisionSplit(v: nat, d: nat)
    requires d > 0
    ensures v == v / d * d + v % d && v % d < d
  {
  }

  lemma Positive(d: nat, e: nat)
    requires d > 0 && e > 0
    ensures d * e > 0
  {
  }

  lemma RecombinedBounds(v: nat, d: nat, e: nat, q: nat, r: nat, rest: nat)
    requires d > 0 && e > 0 && v == (q * e + r) * d + rest && r < e && rest < d
    ensures v == q * (d * e) + (r * d + rest) && r * d + rest < d * e
  {
    assert (q * e + r) * d == q * e * d + r * d;
    MulAssoc(q, e, d);
    MulMonotone(r + 1, e, d);
    Successor(r, d);
  }
}
