/**
 * Fixed-width integers, bitwise operators and the helper macros of common.h.
 *
 * All machine words are modelled as bounded mathematical integers.  The
 * bitwise operators the device code uses (`|`, `&`, `& ~`) are defined here
 * bit by bit on naturals, together with the facts that connect them to
 * ordinary arithmetic (`x & MASK(n)` is `x % 2^n`, OR-ing two values whose
 * bits do not overlap is their sum, ...).
 */
module Common {

  type u8 = x: int | 0 <= x < 0x100
  type u16 = x: int | 0 <= x < 0x1_0000
  type u32 = x: int | 0 <= x < 0x1_0000_0000
  type u64 = x: int | 0 <= x < 0x1_0000_0000_0000_0000
  type i32 = x: int | -0x8000_0000 <= x < 0x8000_0000

  datatype Option<T> = None | Some(value: T)

  /** Unsigned wrap-around into 16, 32 and 64 bits (C conversion rules). */
  function Wrap16(x: int): u16 { x % 0x1_0000 }
  function Wrap32(x: int): u32 { x % 0x1_0000_0000 }
  function Wrap64(x: int): u64 { x % 0x1_0000_0000_0000_0000 }

  function Pow2(n: nat): (p: nat)
    ensures p >= 1
  {
    if n == 0 then 1 else 2 * Pow2(n - 1)
  }

  lemma {:induction false} Pow2Add(a: nat, b: nat)
    ensures Pow2(a + b) == Pow2(a) * Pow2(b)
  {
    if a > 0 {
      Pow2Add(a - 1, b);
      calc {
        Pow2(a + b);
        2 * Pow2(a - 1 + b);
        2 * (Pow2(a - 1) * Pow2(b));
        (2 * Pow2(a - 1)) * Pow2(b);
      }
    }
  }

  lemma {:induction false} Pow2Monotone(a: nat, b: nat)
    requires a < b
    ensures Pow2(a) < Pow2(b)
  {
    if a + 1 < b {
      Pow2Monotone(a, b - 1);
    }
  }

  /** The powers of two that name the word widths of the model. */
  lemma Pow2Constants()
    ensures Pow2(8) == 0x100
    ensures Pow2(16) == 0x1_0000
    ensures Pow2(31) == 0x8000_0000
    ensures Pow2(32) == 0x1_0000_0000
    ensures Pow2(64) == 0x1_0000_0000_0000_0000
  {
    Pow2Byte();
    Pow2Add(8, 8);
    Pow2Word();
    Pow2Add(32, 32);
  }

  lemma Pow2Byte()
    ensures Pow2(8) == 0x100
  {
    assert Pow2(4) == 16;
  }

  lemma Pow2Word()
    requires Pow2(16) == 0x1_0000
    ensures Pow2(31) == 0x8000_0000 && Pow2(32) == 0x1_0000_0000
  {
    Pow2Add(16, 15);
    Pow2Add(8, 7);
    Pow2Byte();
    assert Pow2(7) == 128;
  }

  /** Bit k of x (bit 0 is the least significant). */
  predicate Bit(x: nat, k: nat)
  {
    if k == 0 then x % 2 == 1 else Bit(x / 2, k - 1)
  }

  /** `a | b` */
  function Or(a: nat, b: nat): nat
    decreases a + b
  {
    if a == 0 && b == 0 then 0
    else 2 * Or(a / 2, b / 2) + (if a % 2 == 1 || b % 2 == 1 then 1 else 0)
  }

  /** `a & b` */
  function And(a: nat, b: nat): nat
    decreases a
  {
    if a == 0 then 0
    else 2 * And(a / 2, b / 2) + (if a % 2 == 1 && b % 2 == 1 then 1 else 0)
  }

  /** `a & ~b` */
  function AndNot(a: nat, b: nat): nat
    decreases a
  {
    if a == 0 then 0
    else 2 * AndNot(a / 2, b / 2) + (if a % 2 == 1 && b % 2 == 0 then 1 else 0)
  }

  lemma {:induction false} BitHalf(x: nat, k: nat)
    ensures Bit(x, k + 1) == Bit(x / 2, k)
  {
  }

  lemma {:induction false} OrBit(a: nat, b: nat, k: nat)
    ensures Bit(Or(a, b), k) == (Bit(a, k) || Bit(b, k))
    decreases k
  {
    if a == 0 && b == 0 {
      ZeroBits(k);
    } else {
      var q := Or(a / 2, b / 2);
      var r := if a % 2 == 1 || b % 2 == 1 then 1 else 0;
      assert Or(a, b) == 2 * q + r;
      assert (2 * q + r) / 2 == q && (2 * q + r) % 2 == r;
      if k > 0 {
        OrBit(a / 2, b / 2, k - 1);
      }
    }
  }

  lemma {:induction false} AndBit(a: nat, b: nat, k: nat)
    ensures Bit(And(a, b), k) == (Bit(a, k) && Bit(b, k))
    decreases k
  {
    if a == 0 {
      ZeroBits(k);
    } else {
      var q := And(a / 2, b / 2);
      var r := if a % 2 == 1 && b % 2 == 1 then 1 else 0;
      assert And(a, b) == 2 * q + r;
      assert (2 * q + r) / 2 == q && (2 * q + r) % 2 == r;
      if k > 0 {
        AndBit(a / 2, b / 2, k - 1);
      }
    }
  }

  lemma {:induction false} AndNotBit(a: nat, b: nat, k: nat)
    ensures Bit(AndNot(a, b), k) == (Bit(a, k) && !Bit(b, k))
    decreases k
  {
    if a == 0 {
      ZeroBits(k);
    } else {
      var q := AndNot(a / 2, b / 2);
      var r := if a % 2 == 1 && b % 2 == 0 then 1 else 0;
      assert AndNot(a, b) == 2 * q + r;
      assert (2 * q + r) / 2 == q && (2 * q + r) % 2 == r;
      if k > 0 {
        AndNotBit(a / 2, b / 2, k - 1);
      }
    }
  }

  lemma {:induction false} ZeroBits(k: nat)
    ensures !Bit(0, k)
  {
    if k > 0 {
      ZeroBits(k - 1);
    }
  }

  /** Two naturals with the same bits are equal. */
  lemma {:induction false} BitExtensionality(x: nat, y: nat)
    requires forall k: nat :: Bit(x, k) == Bit(y, k)
    ensures x == y
    decreases x + y
  {
    assert Bit(x, 0) == Bit(y, 0);
    if x != 0 || y != 0 {
      forall k: nat ensures Bit(x / 2, k) == Bit(y / 2, k) {
        BitHalf(x, k);
        BitHalf(y, k);
        assert Bit(x, k + 1) == Bit(y, k + 1);
      }
      BitExtensionality(x / 2, y / 2);
    }
  }

  /** A value below 2^n has no bit at position n or above. */
  lemma {:induction false} BitsAbove(x: nat, n: nat, k: nat)
    requires x < Pow2(n) && n <= k
    ensures !Bit(x, k)
    decreases k
  {
    if x == 0 {
      ZeroBits(k);
    } else if n == 0 {
      assert false;
    } else {
      BitsAbove(x / 2, n - 1, k - 1);
    }
  }

  /** Below 2^(n+1), bit n is exactly the "at least 2^n" test. */
  lemma {:induction false} TopBit(x: nat, n: nat)
    requires x < Pow2(n + 1)
    ensures Bit(x, n) <==> x >= Pow2(n)
    decreases n
  {
    if n > 0 {
      TopBit(x / 2, n - 1);
    }
  }

  /** OR of two values below 2^n stays below 2^n. */
  lemma {:induction false} OrBound(a: nat, b: nat, n: nat)
    requires a < Pow2(n) && b < Pow2(n)
    ensures Or(a, b) < Pow2(n)
    decreases n
  {
    if a == 0 && b == 0 {
    } else if n == 0 {
      assert false;
    } else {
      OrBound(a / 2, b / 2, n - 1);
    }
  }

  lemma {:induction false} AndNotBound(a: nat, b: nat)
    ensures AndNot(a, b) <= a
    decreases a
  {
    if a != 0 {
      AndNotBound(a / 2, b / 2);
    }
  }

  lemma {:induction false} OrZero(a: nat)
    ensures Or(a, 0) == a
    decreases a
  {
    if a != 0 {
      OrZero(a / 2);
    }
  }

  /** `x & (2^n - 1)` keeps the low n bits: it is `x % 2^n`. */
  lemma {:induction false} AndLowMask(x: nat, n: nat)
    ensures And(x, Pow2(n) - 1) == x % Pow2(n)
    decreases n
  {
    if n == 0 {
      AndZero(x);
    } else if x != 0 {
      var p := Pow2(n - 1);
      AndLowMask(x / 2, n - 1);
      assert (Pow2(n) - 1) / 2 == p - 1 && (Pow2(n) - 1) % 2 == 1;
      DivModPow2(x, n);
    }
  }

  lemma {:induction false} AndZero(x: nat)
    ensures And(x, 0) == 0
    decreases x
  {
    if x != 0 {
      AndZero(x / 2);
    }
  }

  /** x % 2^n, computed one halving step at a time. */
  lemma DivModPow2(x: nat, n: nat)
    requires n > 0
    ensures x % Pow2(n) == 2 * ((x / 2) % Pow2(n - 1)) + x % 2
  {
    var p := Pow2(n - 1);
    var q := (x / 2) / p;
    var r := (x / 2) % p;
    assert x / 2 == q * p + r;
    assert x == q * (2 * p) + (2 * r + x % 2);
    assert 0 <= 2 * r + x % 2 < 2 * p;
    ModUnique(x, 2 * p, q, 2 * r + x % 2);
  }

  lemma ModUnique(x: nat, m: nat, q: nat, r: nat)
    requires m > 0 && x == q * m + r && r < m
    ensures x % m == r
  {
    var q', r' := x / m, x % m;
    assert x == q' * m + r';
    if q > q' {
      assert (q - q') * m == q * m - q' * m;
      MulMonotone(q - q', m);
    } else if q < q' {
      assert (q' - q) * m == q' * m - q * m;
      MulMonotone(q' - q, m);
    }
  }

  lemma MulMonotone(a: nat, m: nat)
    requires a >= 1
    ensures a * m >= m
  {
  }

  /**
   * OR-ing a value below 2^n with a multiple of 2^n adds them: this is how a
   * value is placed above the low n bits (`w | (u << n)` with `w < 2^n`).
   */
  lemma {:induction false} OrDisjoint(a: nat, b: nat, n: nat)
    requires a < Pow2(n)
    ensures Or(a, b * Pow2(n)) == a + b * Pow2(n)
    decreases n
  {
    if n == 0 {
      assert a == 0;
      OrZeroLeft(b);
    } else {
      var p := Pow2(n - 1);
      assert b * Pow2(n) == 2 * (b * p);
      assert (b * Pow2(n)) / 2 == b * p && (b * Pow2(n)) % 2 == 0;
      if a == 0 && b * Pow2(n) == 0 {
      } else {
        OrDisjoint(a / 2, b, n - 1);
      }
    }
  }

  lemma {:induction false} OrZeroLeft(b: nat)
    ensures Or(0, b) == b
    decreases b
  {
    if b != 0 {
      OrZeroLeft(b / 2);
    }
  }

  lemma {:induction false} BitOfPow2(j: nat, k: nat)
    ensures Bit(Pow2(j), k) <==> j == k
    decreases j
  {
    if j == 0 {
      if k > 0 {
        ZeroBits(k - 1);
      }
    } else if k > 0 {
      BitOfPow2(j - 1, k - 1);
    }
  }

  /** Bits below n survive a reduction modulo 2^n. */
  lemma {:induction false} BitMod(x: nat, n: nat, k: nat)
    requires k < n
    ensures Bit(x % Pow2(n), k) == Bit(x, k)
    decreases k
  {
    DivModPow2(x, n);
    var r := (x / 2) % Pow2(n - 1);
    assert x % Pow2(n) == 2 * r + x % 2;
    assert (2 * r + x % 2) / 2 == r && (2 * r + x % 2) % 2 == x % 2;
    if k > 0 {
      BitMod(x / 2, n - 1, k - 1);
    }
  }

  // ---------------------------------------------------------------------
  // MASK(n)  (common.h:13)

  /**
   * `~((~0U << n))` in 32-bit unsigned arithmetic: `~0U << n` drops the
   * bits shifted out of the word, and `~v` is `0xFFFF_FFFF - v`.
   */
  function Mask(n: nat): (m: u32)
    requires n <= 31
    ensures m == Pow2(n) - 1
  {
    Pow2Monotone(n, 32);
    Pow2Constants();
    var p := Pow2(n);
    assert 0xFFFF_FFFF * p == 0x1_0000_0000 * (p - 1) + (0x1_0000_0000 - p);
    ModUnique(0xFFFF_FFFF * p, 0x1_0000_0000, p - 1, 0x1_0000_0000 - p);
    0xFFFF_FFFF - Wrap32(0xFFFF_FFFF * p)
  }

  /** `w & MASK(16)` clears the high half-word and keeps the low one. */
  lemma MaskLowHalf(w: u32)
    ensures And(w, Mask(16)) == w % 0x1_0000
  {
    Pow2Constants();
    AndLowMask(w, 16);
  }

  // ---------------------------------------------------------------------
  // The same operators on 32-bit words

  function Or32(a: u32, b: u32): u32
  {
    Pow2Constants();
    OrBound(a, b, 32);
    Or(a, b)
  }

  function AndNot32(a: u32, b: u32): u32
  {
    AndNotBound(a, b);
    AndNot(a, b)
  }

  /** `&` is commutative. */
  lemma AndComm(a: nat, b: nat)
    ensures And(a, b) == And(b, a)
  {
    forall k: nat
      ensures Bit(And(a, b), k) == Bit(And(b, a), k)
    {
      AndBit(a, b, k);
      AndBit(b, a, k);
    }
    BitExtensionality(And(a, b), And(b, a));
  }

  /** Testing one flag: `x & (1 << k)` is nonzero exactly when bit k is set. */
  lemma AndPow2(x: nat, k: nat)
    ensures And(x, Pow2(k)) != 0 <==> Bit(x, k)
  {
    var v := And(x, Pow2(k));
    AndBit(x, Pow2(k), k);
    BitOfPow2(k, k);
    if v != 0 && !Bit(x, k) {
      forall j: nat
        ensures Bit(v, j) == Bit(0, j)
      {
        AndBit(x, Pow2(k), j);
        BitOfPow2(k, j);
        ZeroBits(j);
      }
      BitExtensionality(v, 0);
    }
    if v == 0 {
      ZeroBits(k);
    }
  }

  // ---------------------------------------------------------------------
  // ilog2  (common.h:17-21)

  /** Reference floor of the base-2 logarithm. */
  function Log2(x: nat): nat
  {
    if x < 2 then 0 else 1 + Log2(x / 2)
  }

  lemma {:induction false} Log2Bounds(x: nat)
    requires x >= 1
    ensures Pow2(Log2(x)) <= x < Pow2(Log2(x) + 1)
  {
    if x >= 2 {
      Log2Bounds(x / 2);
    }
  }

  lemma {:induction false} Log2Unique(x: nat, r: nat)
    requires Pow2(r) <= x < Pow2(r + 1)
    ensures Log2(x) == r
    decreases r
  {
    if r > 0 {
      Log2Unique(x / 2, r - 1);
    } else {
      assert x == 1;
    }
  }

  /**
   * `__builtin_clz` over the low n bits of a nonzero value: the number of
   * zero bits above its most significant one.
   */
  function Clz(v: nat, n: nat): (c: nat)
    requires 0 < v < Pow2(n)
    ensures c < n
  {
    if Bit(v, n - 1) then 0
    else
      TopBit(v, n - 1);
      1 + Clz(v, n - 1)
  }

  lemma {:induction false} ClzLog2(v: nat, n: nat)
    requires 0 < v < Pow2(n)
    ensures Clz(v, n) == n - 1 - Log2(v)
    decreases n
  {
    TopBit(v, n - 1);
    if Bit(v, n - 1) {
      Log2Unique(v, n - 1);
    } else {
      ClzLog2(v, n - 1);
    }
  }

  /** `ilog2(x) = 31 - __builtin_clz(x | 1)` on a 32-bit `int`. */
  function ILog2(x: i32): (r: nat)
  {
    Pow2Constants();
    var v := Or(Wrap32(x), 1);
    OrBound(Wrap32(x), 1, 32);
    OrBit(Wrap32(x), 1, 0);
    31 - Clz(v, 32)
  }

  lemma {:induction false} OrOne(x: nat)
    ensures Or(x, 1) == x - x % 2 + 1
  {
    if x != 0 {
      OrZero(x / 2);
      assert Or(x, 1) == 2 * Or(x / 2, 0) + 1;
    }
  }

  lemma Log2OrOne(x: nat)
    requires x >= 1
    ensures Log2(Or(x, 1)) == Log2(x)
  {
    OrOne(x);
    if x % 2 == 0 {
      assert Log2(x + 1) == 1 + Log2((x + 1) / 2);
      assert (x + 1) / 2 == x / 2;
    }
  }

  /**
   * ilog2 is the floor of log2 for positive arguments and 0 for 0; a
   * negative argument reads as an unsigned value with bit 31 set, giving 31.
   */
  lemma ILog2IsFloorLog2(x: i32)
    requires x > 0
    ensures ILog2(x) == Log2(x) && Pow2(ILog2(x)) <= x < Pow2(ILog2(x) + 1)
  {
    ILog2Log2(x);
    ILog2Positive(x);
  }

  lemma ILog2Zero()
    ensures ILog2(0) == 0
  {
    ILog2Log2(0);
    OrOne(0);
  }

  lemma ILog2OfNegative(x: i32)
    requires x < 0
    ensures ILog2(x) == 31
  {
    ILog2Log2(x);
    ILog2Negative(x);
  }

  lemma ILog2Positive(x: i32)
    requires x > 0
    ensures Log2(Or(Wrap32(x), 1)) == Log2(x)
    ensures Pow2(Log2(x)) <= x < Pow2(Log2(x) + 1)
  {
    assert Wrap32(x) == x;
    Log2OrOne(x);
    Log2Bounds(x);
  }

  lemma ILog2Log2(x: i32)
    ensures ILog2(x) == Log2(Or(Wrap32(x), 1))
  {
    Pow2Constants();
    OrBound(Wrap32(x), 1, 32);
    ClzLog2(Or(Wrap32(x), 1), 32);
  }

  lemma ILog2Negative(x: i32)
    requires x < 0
    ensures Log2(Or(Wrap32(x), 1)) == 31
  {
    Pow2Constants();
    var u := Wrap32(x);
    assert u == x + 0x1_0000_0000;
    OrOne(u);
    assert 0x8000_0000 <= Or(u, 1) < 0x1_0000_0000;
    Log2Unique(Or(u, 1), 31);
  }

  // ---------------------------------------------------------------------
  // set_bit / bitmap_set_bit  (common.h:23-31)

  const BITS_PER_LONG := 64

  /**
   * `map[bit / BITS_PER_LONG] |= (1 << (bit % BITS_PER_LONG))`.  The shift
   * is evaluated on an `int`, so only in-word positions below 31 are defined.
   */
  method BitmapSetBit(bitmap: array<u64>, bit: u64)
    requires bit / BITS_PER_LONG < bitmap.Length
    requires bit % BITS_PER_LONG < 31
    modifies bitmap
    ensures bitmap[bit / BITS_PER_LONG] == Or(old(bitmap[bit / BITS_PER_LONG]), Pow2(bit % BITS_PER_LONG))
    ensures forall i :: 0 <= i < bitmap.Length && i != bit / BITS_PER_LONG ==> bitmap[i] == old(bitmap[i])
  {
    var w := bit / BITS_PER_LONG;
    var j := bit % BITS_PER_LONG;
    Pow2Constants();
    Pow2Monotone(j, 64);
    OrBound(bitmap[w], Pow2(j), 64);
    bitmap[w] := Or(bitmap[w], Pow2(j));
  }

  /** Setting bit j of a word sets that bit and leaves every other bit as it was. */
  lemma SetBitOnly(w: nat, j: nat, k: nat)
    ensures Bit(Or(w, Pow2(j)), k) <==> Bit(w, k) || k == j
  {
    OrBit(w, Pow2(j), k);
    BitOfPow2(j, k);
  }

  // ---------------------------------------------------------------------
  // RANGE_CHECK  (common.h:33-40)

  /**
   * `(int32_t)((x - minx) | (minx + size - 1 - x)) >= 0` with a 32-bit `x`
   * and `minx` and a `size_t` size: the left operand wraps in 32 bits, the
   * right one in 64 bits, and the cast keeps the low 32 bits as a signed
   * value, which is non-negative exactly when bit 31 is clear.
   */
  predicate RangeCheck(x: u32, minx: u32, size: u64)
  {
    var lo := Wrap32(x - minx);
    var hi := Wrap64(minx + size - 1 - x);
    Wrap32(Or(lo, hi)) < 0x8000_0000
  }

  /** Bit 31 of the low word of `lo | hi` is clear iff it is clear in both. */
  lemma OrSignBit(lo: u32, hi: nat)
    ensures Wrap32(Or(lo, hi)) < 0x8000_0000 <==> lo < 0x8000_0000 && Wrap32(hi) < 0x8000_0000
  {
    Pow2Constants();
    var v := Or(lo, hi);
    BitMod(v, 32, 31);
    OrBit(lo, hi, 31);
    BitMod(hi, 32, 31);
    TopBit(Wrap32(v), 31);
    TopBit(lo, 31);
    TopBit(Wrap32(hi), 31);
  }

  /** For operands below 2^31 the bit trick is the interval test it replaces. */
  lemma RangeCheckIsInterval(x: u32, minx: u32, size: u64)
    requires x < 0x8000_0000 && minx + size <= 0x8000_0000
    ensures RangeCheck(x, minx, size) <==> minx <= x <= minx + size - 1
  {
    OrSignBit(Wrap32(x - minx), Wrap64(minx + size - 1 - x));
    BelowSignBit(x - minx);
    BelowSignBit64(minx + size - 1 - x);
  }

  /** A difference of two values below 2^31 wraps below 2^31 iff it is not negative. */
  lemma BelowSignBit(d: int)
    requires -0x8000_0000 <= d < 0x8000_0000
    ensures Wrap32(d) < 0x8000_0000 <==> d >= 0
  {
    if d < 0 {
      assert Wrap32(d) == 0x1_0000_0000 + d;
    }
  }

  /** The same, for a difference wrapped first in 64 and then in 32 bits. */
  lemma BelowSignBit64(d: int)
    requires -0x8000_0000 <= d < 0x8000_0000
    ensures Wrap32(Wrap64(d)) < 0x8000_0000 <==> d >= 0
  {
    if d < 0 {
      assert Wrap64(d) == 0x1_0000_0000_0000_0000 + d;
      ModUnique(0x1_0000_0000_0000_0000 + d, 0x1_0000_0000, 0xFFFF_FFFF, 0x1_0000_0000 + d);
    }
  }
}
