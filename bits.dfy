/** Bit-level arithmetic on unbounded natural numbers, as Python's integer
    operators see them: `x >> n` is `Shr(x, n)`, `x << n` is `Shl(x, n)`,
    `x & (2^n - 1)` is `Low(x, n)`, and `x | y`, `x ^ y` are `Or(x, y)`,
    `Xor(x, y)`. Each is defined by halving or doubling, so no proof needs
    nonlinear arithmetic. Facts are proved bit by bit and lifted to whole
    numbers with `BitsDetermine`. A bound "x < 2^n" is stated as
    `FitsIn(x, n)`, that is `x >> n == 0`; `FitsInPow2` proves the two
    equivalent. */
module Bits {

  function Pow2(n: nat): (p: nat)
    ensures p > 0
  {
    if n == 0 then 1 else 2 * Pow2(n - 1)
  }

  /** `x >> n`. */
  function Shr(x: nat, n: nat): nat
  {
    if n == 0 then x else Shr(x / 2, n - 1)
  }

  /** `x << n`. */
  function Shl(x: nat, n: nat): nat
  {
    if n == 0 then x else 2 * Shl(x, n - 1)
  }

  /** `x & (2^n - 1)`: the low n bits of x. */
  function Low(x: nat, n: nat): nat
  {
    if n == 0 then 0 else 2 * Low(x / 2, n - 1) + x % 2
  }

  /** Bit k of x: `(x >> k) & 1 == 1`. */
  predicate Bit(x: nat, k: nat)
  {
    Shr(x, k) % 2 == 1
  }

  /** x fits in n bits: `x >> n == 0`, which is x < 2^n (`FitsInPow2`). */
  predicate FitsIn(x: nat, n: nat)
  {
    Shr(x, n) == 0
  }

  /** The field of width w starting at bit lo: `(x >> lo) & (2^w - 1)`. */
  function Field(x: nat, lo: nat, w: nat): nat
  {
    Low(Shr(x, lo), w)
  }

  /** `a ^ b` on non-negative integers. */
  function Xor(a: nat, b: nat): nat
    decreases a + b
  {
    if a == 0 && b == 0 then 0
    else 2 * Xor(a / 2, b / 2) + (if a % 2 != b % 2 then 1 else 0)
  }

  /** `a | b` on non-negative integers. */
  function Or(a: nat, b: nat): nat
    decreases a + b
  {
    if a == 0 && b == 0 then 0
    else 2 * Or(a / 2, b / 2) + (if a % 2 == 1 || b % 2 == 1 then 1 else 0)
  }

  // ---------------------------------------------------------------------
  // Single bits

  lemma BitSucc(x: nat, k: nat)
    ensures Bit(x, k + 1) == Bit(x / 2, k)
  {
  }

  /** The bits of 2z + b: b at the bottom, then the bits of z. */
  lemma BitOfDouble(z: nat, b: nat, k: nat)
    requires b < 2
    ensures Bit(2 * z + b, k) == if k == 0 then b == 1 else Bit(z, k - 1)
  {
    if k > 0 {
      assert (2 * z + b) / 2 == z;
    }
  }

  lemma {:induction false} ShrOfZero(n: nat)
    ensures Shr(0, n) == 0
  {
    if n > 0 {
      ShrOfZero(n - 1);
    }
  }

  lemma BitOfZero(k: nat)
    ensures !Bit(0, k)
  {
    ShrOfZero(k);
  }

  lemma BitOfOne(k: nat)
    ensures Bit(1, k) == (k == 0)
  {
    if k > 0 {
      BitOfZero(k - 1);
    }
  }

  /** Two numbers with the same bits are equal. */
  lemma {:induction false} BitsDetermine(x: nat, y: nat)
    requires forall k: nat :: Bit(x, k) == Bit(y, k)
    ensures x == y
    decreases x + y
  {
    if x != 0 || y != 0 {
      assert Bit(x, 0) == Bit(y, 0);
      forall k: nat
        ensures Bit(x / 2, k) == Bit(y / 2, k)
      {
        BitSucc(x, k);
        BitSucc(y, k);
      }
      BitsDetermine(x / 2, y / 2);
    }
  }

  /** Every bit at or above n of a number that fits in n bits is clear. */
  lemma BitAbove(x: nat, n: nat, k: nat)
    requires FitsIn(x, n) && n <= k
    ensures !Bit(x, k)
  {
    ShrBit(x, n, k - n);
    BitOfZero(k - n);
  }

  /** A number whose bits from n upwards are clear fits in n bits. */
  lemma BelowFromBits(x: nat, n: nat)
    requires forall k: nat :: n <= k ==> !Bit(x, k)
    ensures FitsIn(x, n)
  {
    forall j: nat
      ensures Bit(Shr(x, n), j) == Bit(0, j)
    {
      ShrBit(x, n, j);
      BitOfZero(j);
    }
    BitsDetermine(Shr(x, n), 0);
  }

  /** `FitsIn(x, n)` says exactly x < 2^n. */
  lemma {:induction false} FitsInPow2(x: nat, n: nat)
    ensures FitsIn(x, n) <==> x < Pow2(n)
  {
    if n > 0 {
      FitsInPow2(x / 2, n - 1);
    }
  }

  lemma FitsInMonotone(x: nat, a: nat, b: nat)
    requires FitsIn(x, a) && a <= b
    ensures FitsIn(x, b)
  {
    forall k: nat | b <= k
      ensures !Bit(x, k)
    {
      BitAbove(x, a, k);
    }
    BelowFromBits(x, b);
  }

  /** The widths the cipher uses, as numbers. */
  lemma FitsInConstants(x: nat)
    ensures FitsIn(x, 8) <==> x < 256
    ensures FitsIn(x, 16) <==> x < 65536
    ensures FitsIn(x, 32) <==> x < 0x1_0000_0000
  {
    Pow2Constants();
    FitsInPow2(x, 8);
    FitsInPow2(x, 16);
    FitsInPow2(x, 32);
  }

  lemma BitOfPow2(n: nat, k: nat)
    ensures Bit(Pow2(n), k) == (k == n)
  {
    ShlOfOne(n);
    ShlBit(1, n, k);
    if n <= k {
      BitOfOne(k - n);
    }
  }

  lemma Pow2Constants()
    ensures Pow2(8) == 256 && Pow2(16) == 65536 && Pow2(32) == 0x1_0000_0000
  {
    assert Pow2(4) == 16;
    assert Pow2(8) == 256;
    assert Pow2(12) == 4096;
    assert Pow2(16) == 65536;
    assert Pow2(20) == 1048576;
    assert Pow2(24) == 16777216;
    assert Pow2(28) == 268435456;
  }

  // ---------------------------------------------------------------------
  // Shifts, masks and fields

  lemma {:induction false} ShrBit(x: nat, a: nat, k: nat)
    ensures Bit(Shr(x, a), k) == Bit(x, a + k)
  {
    if a > 0 {
      ShrBit(x / 2, a - 1, k);
    }
  }

  lemma {:induction false} ShlBit(x: nat, a: nat, k: nat)
    ensures Bit(Shl(x, a), k) == (a <= k && Bit(x, k - a))
  {
    if a > 0 {
      BitOfDouble(Shl(x, a - 1), 0, k);
      if k > 0 {
        ShlBit(x, a - 1, k - 1);
      }
    }
  }

  lemma {:induction false} ShlOfOne(n: nat)
    ensures Shl(1, n) == Pow2(n)
  {
    if n > 0 {
      ShlOfOne(n - 1);
    }
  }

  lemma {:induction false} LowBit(x: nat, n: nat, k: nat)
    ensures Bit(Low(x, n), k) == (k < n && Bit(x, k))
  {
    if n == 0 {
      BitOfZero(k);
    } else {
      BitOfDouble(Low(x / 2, n - 1), x % 2, k);
      if k > 0 {
        LowBit(x / 2, n - 1, k - 1);
      }
    }
  }

  lemma LowBound(x: nat, n: nat)
    ensures FitsIn(Low(x, n), n)
  {
    forall k: nat | n <= k
      ensures !Bit(Low(x, n), k)
    {
      LowBit(x, n, k);
    }
    BelowFromBits(Low(x, n), n);
  }

  /** Masking to n bits changes nothing in a number that fits in n bits. */
  lemma LowOfSmall(x: nat, n: nat)
    requires FitsIn(x, n)
    ensures Low(x, n) == x
  {
    forall k: nat
      ensures Bit(Low(x, n), k) == Bit(x, k)
    {
      LowBit(x, n, k);
      if n <= k {
        BitAbove(x, n, k);
      }
    }
    BitsDetermine(Low(x, n), x);
  }

  /** Shifting a number of m bits left by a gives one of m + a bits. */
  lemma ShlBound(x: nat, a: nat, m: nat)
    requires FitsIn(x, m)
    ensures FitsIn(Shl(x, a), m + a)
  {
    forall k: nat | m + a <= k
      ensures !Bit(Shl(x, a), k)
    {
      ShlBit(x, a, k);
      BitAbove(x, m, k - a);
    }
    BelowFromBits(Shl(x, a), m + a);
  }

  lemma FieldBit(x: nat, lo: nat, w: nat, m: nat)
    ensures Bit(Field(x, lo, w), m) == (m < w && Bit(x, lo + m))
  {
    LowBit(Shr(x, lo), w, m);
    ShrBit(x, lo, m);
  }

  lemma FieldBound(x: nat, lo: nat, w: nat)
    ensures FitsIn(Field(x, lo, w), w)
  {
    LowBound(Shr(x, lo), w);
  }

  /** A field is pinned down by its bits: if the w bits of x from lo on are
      those of v, and v fits in w bits, the field is v. */
  lemma FieldIs(x: nat, lo: nat, w: nat, v: nat)
    requires FitsIn(v, w)
    requires forall m: nat :: m < w ==> Bit(x, lo + m) == Bit(v, m)
    ensures Field(x, lo, w) == v
  {
    forall m: nat
      ensures Bit(Field(x, lo, w), m) == Bit(v, m)
    {
      FieldBit(x, lo, w, m);
      if w <= m {
        BitAbove(v, w, m);
      }
    }
    BitsDetermine(Field(x, lo, w), v);
  }

  // ---------------------------------------------------------------------
  // Xor and Or

  lemma {:induction false} XorBit(a: nat, b: nat, k: nat)
    ensures Bit(Xor(a, b), k) == (Bit(a, k) != Bit(b, k))
    decreases a + b
  {
    if a == 0 && b == 0 {
      BitOfZero(k);
    } else {
      BitOfDouble(Xor(a / 2, b / 2), if a % 2 != b % 2 then 1 else 0, k);
      if k > 0 {
        XorBit(a / 2, b / 2, k - 1);
      }
    }
  }

  lemma {:induction false} OrBit(a: nat, b: nat, k: nat)
    ensures Bit(Or(a, b), k) == (Bit(a, k) || Bit(b, k))
    decreases a + b
  {
    if a == 0 && b == 0 {
      BitOfZero(k);
    } else {
      BitOfDouble(Or(a / 2, b / 2), if a % 2 == 1 || b % 2 == 1 then 1 else 0, k);
      if k > 0 {
        OrBit(a / 2, b / 2, k - 1);
      }
    }
  }

  /** XOR with the same value twice gives back the original. */
  lemma XorSelfInverse(a: nat, b: nat)
    ensures Xor(Xor(a, b), b) == a
  {
    forall k: nat
      ensures Bit(Xor(Xor(a, b), b), k) == Bit(a, k)
    {
      XorBit(Xor(a, b), b, k);
      XorBit(a, b, k);
    }
    BitsDetermine(Xor(Xor(a, b), b), a);
  }

  lemma XorZero(a: nat)
    ensures Xor(a, 0) == a && Xor(0, a) == a
  {
    forall k: nat
      ensures Bit(Xor(a, 0), k) == Bit(a, k) && Bit(Xor(0, a), k) == Bit(a, k)
    {
      XorBit(a, 0, k);
      XorBit(0, a, k);
      BitOfZero(k);
    }
    BitsDetermine(Xor(a, 0), a);
    BitsDetermine(Xor(0, a), a);
  }

  lemma OrZero(a: nat)
    ensures Or(a, 0) == a && Or(0, a) == a
  {
    forall k: nat
      ensures Bit(Or(a, 0), k) == Bit(a, k) && Bit(Or(0, a), k) == Bit(a, k)
    {
      OrBit(a, 0, k);
      OrBit(0, a, k);
      BitOfZero(k);
    }
    BitsDetermine(Or(a, 0), a);
    BitsDetermine(Or(0, a), a);
  }

  lemma XorBound(a: nat, b: nat, n: nat)
    requires FitsIn(a, n) && FitsIn(b, n)
    ensures FitsIn(Xor(a, b), n)
  {
    forall k: nat | n <= k
      ensures !Bit(Xor(a, b), k)
    {
      XorBit(a, b, k);
      BitAbove(a, n, k);
      BitAbove(b, n, k);
    }
    BelowFromBits(Xor(a, b), n);
  }

  lemma OrBound(a: nat, b: nat, n: nat)
    requires FitsIn(a, n) && FitsIn(b, n)
    ensures FitsIn(Or(a, b), n)
  {
    forall k: nat | n <= k
      ensures !Bit(Or(a, b), k)
    {
      OrBit(a, b, k);
      BitAbove(a, n, k);
      BitAbove(b, n, k);
    }
    BelowFromBits(Or(a, b), n);
  }

  // ---------------------------------------------------------------------
  // Placing one value above another

  /** `(y << w) | v` with v of w bits: the low w bits are v's, the bits
      above are y's. */
  lemma ConcatBit(y: nat, v: nat, w: nat, k: nat)
    requires FitsIn(v, w)
    ensures Bit(Or(Shl(y, w), v), k) == if k < w then Bit(v, k) else Bit(y, k - w)
  {
    OrBit(Shl(y, w), v, k);
    ShlBit(y, w, k);
    if w <= k {
      BitAbove(v, w, k);
    }
  }

  /** `(y << w) + v` with v of w bits has the same bits as `(y << w) | v`. */
  lemma {:induction false} ShlPlusBit(y: nat, v: nat, w: nat, k: nat)
    requires FitsIn(v, w)
    ensures Bit(Shl(y, w) + v, k) == if k < w then Bit(v, k) else Bit(y, k - w)
  {
    if w == 0 {
      assert Shl(y, w) + v == y;
    } else {
      var z := Shl(y, w - 1) + v / 2;
      assert Shl(y, w) + v == 2 * z + v % 2;
      BitOfDouble(z, v % 2, k);
      BitOfDouble(v / 2, v % 2, k);
      assert v == 2 * (v / 2) + v % 2;
      if k > 0 {
        ShlPlusBit(y, v / 2, w - 1, k - 1);
      }
    }
  }

  /** `y << n` is `y * 2^n`. */
  lemma {:induction false} ShlIsMul(y: nat, n: nat)
    ensures Shl(y, n) == y * Pow2(n)
  {
    if n > 0 {
      ShlIsMul(y, n - 1);
      assert y * Pow2(n) == 2 * (y * Pow2(n - 1));
    }
  }

  /** `y << 8` is `y * 256`. */
  lemma ShlByte(y: nat)
    ensures Shl(y, 8) == y * 256
  {
    ShlIsMul(y, 8);
    assert Pow2(8) == 256;
  }
}
