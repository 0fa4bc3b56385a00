/** Bitwise arithmetic on natural numbers, the common ground of the descriptor
    encodings, the address macros and the set/way operands.  Every operation is
    defined bit by bit, from the least significant bit up. */
module Bits {

  const TWO_32 := 0x1_0000_0000
  const TWO_64 := 0x1_0000_0000_0000_0000

  function Pow2(k: nat): (p: nat)
    ensures p > 0
  {
    if k == 0 then 1 else 2 * Pow2(k - 1)
  }

  function And(a: nat, b: nat): nat
    decreases a
  {
    if a == 0 || b == 0 then 0
    else 2 * And(a / 2, b / 2) + if a % 2 == 1 && b % 2 == 1 then 1 else 0
  }

  function Or(a: nat, b: nat): nat
    decreases a + b
  {
    if a == 0 && b == 0 then 0
    else 2 * Or(a / 2, b / 2) + if a % 2 == 1 || b % 2 == 1 then 1 else 0
  }

  /** x shifted left without losing bits: x times 2^k. */
  function Scale(x: nat, k: nat): nat {
    if k == 0 then x else 2 * Scale(x, k - 1)
  }

  /** A left shift of a 64-bit register. */
  function Shl(x: nat, k: nat): nat {
    Scale(x, k) % TWO_64
  }

  function Shr(x: nat, k: nat): nat
    decreases k, x
  {
    if k == 0 then x else Shr(x / 2, k - 1)
  }

  /** The k low bits of x. */
  function Low(x: nat, k: nat): (r: nat)
    ensures r < Pow2(k)
    decreases k, x
  {
    if k == 0 then 0 else 2 * Low(x / 2, k - 1) + x % 2
  }

  /** Bits lo .. lo+len-1 of x, read as a number. */
  function Field(x: nat, lo: nat, len: nat): (f: nat)
    ensures f < Pow2(len)
  {
    Low(Shr(x, lo), len)
  }

  /** The mask with ones exactly in bits lo .. lo+len-1. */
  function Mask(lo: nat, len: nat): nat {
    if lo == 0 then Pow2(len) - 1 else 2 * Mask(lo - 1, len)
  }

  // ----- Powers of two -----

  lemma {:induction false} ScalePow2(a: nat, b: nat)
    ensures Scale(Pow2(a), b) == Pow2(a + b)
  {
    if b > 0 {
      ScalePow2(a, b - 1);
    }
  }

  lemma {:induction false} Pow2Monotone(a: nat, b: nat)
    requires a <= b
    ensures Pow2(a) <= Pow2(b)
    ensures a < b ==> 2 * Pow2(a) <= Pow2(b)
    decreases b
  {
    if a < b {
      Pow2Monotone(a, b - 1);
    }
  }

  /** The powers that name field positions in registers and descriptors. */
  lemma Pow2Table()
    ensures Pow2(0) == 1 && Pow2(1) == 2 && Pow2(2) == 4 && Pow2(3) == 8 && Pow2(4) == 16
    ensures Pow2(8) == 0x100 && Pow2(9) == 0x200 && Pow2(10) == 0x400 && Pow2(12) == 0x1000
    ensures Pow2(15) == 0x8000 && Pow2(16) == 0x1_0000 && Pow2(21) == 0x20_0000
    ensures Pow2(30) == 0x4000_0000 && Pow2(32) == TWO_32 && Pow2(36) == 0x10_0000_0000
    ensures Pow2(39) == 0x80_0000_0000 && Pow2(48) == 0x1_0000_0000_0000
    ensures Pow2(53) == 0x20_0000_0000_0000 && Pow2(54) == 0x40_0000_0000_0000
    ensures Pow2(64) == TWO_64
  {
    Pow2Step(0);
    Pow2Step(8);
    Pow2Step(16);
    Pow2Step(24);
    Pow2Step(32);
    Pow2Step(40);
    Pow2Step(48);
    Pow2Step(56);
  }

  lemma Pow2Step(k: nat)
    ensures Pow2(k + 1) == 2 * Pow2(k) && Pow2(k + 2) == 4 * Pow2(k)
    ensures Pow2(k + 3) == 8 * Pow2(k) && Pow2(k + 4) == 16 * Pow2(k)
    ensures Pow2(k + 5) == 32 * Pow2(k) && Pow2(k + 6) == 64 * Pow2(k)
    ensures Pow2(k + 7) == 128 * Pow2(k) && Pow2(k + 8) == 256 * Pow2(k)
  {
    assert Pow2(k + 2) == 2 * Pow2(k + 1);
    assert Pow2(k + 4) == 2 * Pow2(k + 3) == 4 * Pow2(k + 2);
    assert Pow2(k + 6) == 2 * Pow2(k + 5) == 4 * Pow2(k + 4);
    assert Pow2(k + 8) == 2 * Pow2(k + 7) == 4 * Pow2(k + 6);
  }

  // ----- Shifts and fields -----

  lemma {:induction false} ScaleAdd(x: nat, y: nat, k: nat)
    ensures Scale(x + y, k) == Scale(x, k) + Scale(y, k)
  {
    if k > 0 {
      ScaleAdd(x, y, k - 1);
    }
  }

  lemma {:induction false} ScaleScale(x: nat, a: nat, b: nat)
    ensures Scale(Scale(x, a), b) == Scale(x, a + b)
  {
    if b > 0 {
      ScaleScale(x, a, b - 1);
    }
  }

  lemma {:induction false} ScaleZero(k: nat)
    ensures Scale(0, k) == 0
  {
    if k > 0 {
      ScaleZero(k - 1);
    }
  }

  lemma ScaleOne(x: nat)
    ensures Scale(x, 1) == 2 * x
  {
    assert Scale(x, 1) == 2 * Scale(x, 0);
  }

  lemma {:induction false} ScaleBound(x: nat, bits: nat, k: nat)
    requires x < Pow2(bits)
    ensures Scale(x, k) + Pow2(k) <= Pow2(bits + k)
  {
    if k > 0 {
      ScaleBound(x, bits, k - 1);
    }
  }

  lemma {:induction false} ShrShr(x: nat, a: nat, b: nat)
    ensures Shr(Shr(x, a), b) == Shr(x, a + b)
    decreases a
  {
    if a > 0 {
      ShrShr(x / 2, a - 1, b);
    }
  }

  /** A number stacked on k low bits comes apart again. */
  lemma {:induction false} Split(high: nat, low: nat, k: nat)
    requires low < Pow2(k)
    ensures Shr(Scale(high, k) + low, k) == high
    ensures Low(Scale(high, k) + low, k) == low
  {
    if k > 0 {
      assert (Scale(high, k) + low) / 2 == Scale(high, k - 1) + low / 2;
      Split(high, low / 2, k - 1);
    }
  }

  /** The middle one of three stacked fields. */
  lemma FieldOfStack(high: nat, mid: nat, low: nat, lo: nat, len: nat)
    requires low < Pow2(lo) && mid < Pow2(len)
    ensures Field(Scale(high, len + lo) + Scale(mid, lo) + low, lo, len) == mid
    ensures Shr(Scale(high, len + lo) + Scale(mid, lo) + low, len + lo) == high
  {
    var x := Scale(high, len + lo) + Scale(mid, lo) + low;
    ScaleScale(high, len, lo);
    ScaleAdd(Scale(high, len), mid, lo);
    Split(Scale(high, len) + mid, low, lo);
    Split(high, mid, len);
    ShrShr(x, lo, len);
  }

  lemma LowId(x: nat, k: nat)
    requires x < Pow2(k)
    ensures Low(x, k) == x
    ensures Shr(x, k) == 0
  {
    ScaleZero(k);
    Split(0, x, k);
  }

  lemma {:induction false} Rejoin(x: nat, k: nat)
    ensures x == Scale(Shr(x, k), k) + Low(x, k)
    decreases k
  {
    if k > 0 {
      Rejoin(x / 2, k - 1);
    }
  }

  lemma {:induction false} LowLow(x: nat, n: nat, k: nat)
    requires k <= n
    ensures Low(Low(x, n), k) == Low(x, k)
    decreases n
  {
    if k > 0 {
      assert Low(x, n) / 2 == Low(x / 2, n - 1);
      LowLow(x / 2, n - 1, k - 1);
    }
  }

  lemma {:induction false} ShrLow(x: nat, n: nat, b: nat)
    ensures Shr(Low(x, n + b), b) == Low(Shr(x, b), n)
    decreases b
  {
    if b > 0 {
      assert Low(x, n + b) / 2 == Low(x / 2, n + b - 1);
      ShrLow(x / 2, n, b - 1);
    }
  }

  /** A field of a field. */
  lemma FieldOfField(x: nat, lo: nat, len: nat, b: nat, c: nat)
    requires b + c <= len
    ensures Field(Field(x, lo, len), b, c) == Field(x, lo + b, c)
  {
    ShrLow(Shr(x, lo), len - b, b);
    ShrShr(x, lo, b);
    LowLow(Shr(x, lo + b), len - b, c);
  }

  /** The low a+b bits are the field above bit a on top of the low a bits. */
  lemma LowSplit(x: nat, a: nat, b: nat)
    ensures Low(x, a + b) == Scale(Field(x, a, b), a) + Low(x, a)
  {
    Rejoin(Low(x, b + a), a);
    ShrLow(x, b, a);
    LowLow(x, a + b, a);
  }

  /** A shift by a field width that is a literal power is a division. */
  lemma ShrByPower(x: nat, k: nat, p: nat, q: nat)
    requires p == Pow2(k)
    requires q * p <= x < q * p + p
    ensures Shr(x, k) == q && Low(x, k) == x - q * p
  {
    ScaleIsProduct(q, k);
    Split(q, x - q * p, k);
  }

  lemma {:induction false} ScaleIsProduct(x: nat, k: nat)
    ensures Scale(x, k) == x * Pow2(k)
  {
    if k > 0 {
      ScaleIsProduct(x, k - 1);
      assert x * (2 * Pow2(k - 1)) == 2 * (x * Pow2(k - 1));
    }
  }

  // ----- AND with a mask, OR of disjoint fields -----

  lemma {:induction false} OrZero(a: nat)
    ensures Or(a, 0) == a
    ensures Or(0, a) == a
  {
    if a > 0 {
      OrZero(a / 2);
    }
  }

  lemma {:induction false} OrCommutes(a: nat, b: nat)
    ensures Or(a, b) == Or(b, a)
    decreases a + b
  {
    if a + b > 0 {
      OrCommutes(a / 2, b / 2);
    }
  }

  /** ORing a number below 2^k leaves the bits from k upwards alone. */
  lemma {:induction false} OrLowPart(k: nat, high: nat, a: nat, b: nat)
    requires a < Pow2(k) && b < Pow2(k)
    ensures Or(Scale(high, k) + a, b) == Scale(high, k) + Or(a, b)
  {
    if k == 0 {
      OrZero(high);
    } else if Scale(high, k) + a + b > 0 {
      assert (Scale(high, k) + a) / 2 == Scale(high, k - 1) + a / 2;
      OrLowPart(k - 1, high, a / 2, b / 2);
    }
  }

  /** ORing a number into bits that are all clear adds it. */
  /** OR and AND act on every bit by itself. */
  lemma {:induction false} BitwiseOr(a: nat, b: nat, k: nat)
    ensures Field(Or(a, b), k, 1) == 1 <==> Field(a, k, 1) == 1 || Field(b, k, 1) == 1
    decreases k
  {
    if k > 0 {
      BitwiseOr(a / 2, b / 2, k - 1);
    }
  }

  lemma {:induction false} BitwiseAnd(a: nat, b: nat, k: nat)
    ensures Field(And(a, b), k, 1) == 1 <==> Field(a, k, 1) == 1 && Field(b, k, 1) == 1
    decreases k
  {
    if k > 0 {
      BitwiseAnd(a / 2, b / 2, k - 1);
    }
  }

  lemma OrDisjoint(k: nat, high: nat, low: nat)
    requires low < Pow2(k)
    ensures Or(Scale(high, k), low) == Scale(high, k) + low
    ensures Or(low, Scale(high, k)) == Scale(high, k) + low
  {
    OrLowPart(k, high, 0, low);
    OrZero(low);
    OrCommutes(low, Scale(high, k));
  }

  lemma {:induction false} MaskIsScaled(lo: nat, len: nat)
    ensures Mask(lo, len) == Scale(Pow2(len) - 1, lo)
  {
    if lo > 0 {
      MaskIsScaled(lo - 1, len);
    }
  }

  lemma {:induction false} AndCommutes(a: nat, b: nat)
    ensures And(a, b) == And(b, a)
  {
    if a > 0 && b > 0 {
      AndCommutes(a / 2, b / 2);
    }
  }

  lemma {:induction false} AndLow(x: nat, len: nat)
    ensures And(x, Pow2(len) - 1) == Low(x, len)
  {
    if len == 0 {
    } else if x == 0 {
      ScaleZero(len);
      Split(0, 0, len);
    } else {
      AndLow(x / 2, len - 1);
      assert (2 * Pow2(len - 1) - 1) / 2 == Pow2(len - 1) - 1;
    }
  }

  /** ANDing with a mask keeps one field and clears the rest. */
  lemma {:induction false} AndField(x: nat, lo: nat, len: nat)
    ensures And(x, Mask(lo, len)) == Scale(Field(x, lo, len), lo)
    decreases lo
  {
    if lo == 0 {
      AndLow(x, len);
    } else {
      AndField(x / 2, lo - 1, len);
      if x == 0 || Mask(lo, len) == 0 {
        AndZero(x / 2, Mask(lo - 1, len));
      }
    }
  }

  lemma AndZero(a: nat, b: nat)
    requires a == 0 || b == 0
    ensures And(a, b) == 0
  {
  }
}
