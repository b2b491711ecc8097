/** Integer widths and bitwise operators of C, stated on unbounded integers.

    The bitwise operators `&`, `|` and `^` are defined on non-negative integers
    bit by bit (least significant bit first); a signed 32-bit operand is first
    read as its two's-complement bit pattern (`ToUnsigned32`) and the result is
    read back as a signed value (`ToSigned32`). Shifts are multiplication and
    floor division by powers of two. */
module Bits {

  const INT_MIN: int := -0x8000_0000
  const INT_MAX: int := 0x7fff_ffff

  /** The C `int` (and `int32_t`) of the target: 32-bit two's complement. */
  type Int32 = x: int | INT_MIN <= x <= INT_MAX

  predicate IsInt32(x: int) {
    INT_MIN <= x <= INT_MAX
  }

  /** 2^n. */
  function Pow2(n: nat): (p: nat)
    ensures p > 0
  {
    if n == 0 then 1 else 2 * Pow2(n - 1)
  }

  /** Floor of the base-2 logarithm. */
  function Log2(x: nat): nat
    requires x > 0
  {
    if x == 1 then 0 else 1 + Log2(x / 2)
  }

  predicate IsPowerOfTwo(x: nat) {
    x > 0 && Pow2(Log2(x)) == x
  }

  /** Bit k of x is set (bit 0 is the least significant one). */
  predicate Bit(x: nat, k: nat) {
    if k == 0 then x % 2 == 1 else Bit(x / 2, k - 1)
  }

  /** `x & y` */
  function And(x: nat, y: nat): nat {
    if x == 0 || y == 0 then 0
    else 2 * And(x / 2, y / 2) + (if x % 2 == 1 && y % 2 == 1 then 1 else 0)
  }

  /** `x | y` */
  function Or(x: nat, y: nat): nat {
    if x == 0 then y
    else if y == 0 then x
    else 2 * Or(x / 2, y / 2) + (if x % 2 == 1 || y % 2 == 1 then 1 else 0)
  }

  /** `x ^ y` */
  function Xor(x: nat, y: nat): nat {
    if x == 0 then y
    else if y == 0 then x
    else 2 * Xor(x / 2, y / 2) + (if x % 2 != y % 2 then 1 else 0)
  }

  /** `x >> n` on a signed or unsigned operand: floor division by 2^n, which
      for a negative signed operand is the arithmetic shift GCC performs. */
  function ShiftRight(x: int, n: nat): int {
    x / Pow2(n)
  }

  /** The bit pattern of a 32-bit signed value, as an unsigned value. */
  function ToUnsigned32(x: Int32): (u: nat)
    ensures u < 0x1_0000_0000
    ensures u == if x < 0 then x + 0x1_0000_0000 else x
  {
    x % 0x1_0000_0000
  }

  /** The signed value of a 32-bit pattern (conversion to `int`, modulo 2^32). */
  function ToSigned32(u: nat): Int32
    requires u < 0x1_0000_0000
  {
    if u < 0x8000_0000 then u else u - 0x1_0000_0000
  }

  /** `a & b` on two 32-bit signed operands. */
  function And32(a: Int32, b: Int32): Int32 {
    AndBound(ToUnsigned32(a), ToUnsigned32(b));
    ToSigned32(And(ToUnsigned32(a), ToUnsigned32(b)))
  }

  /** `a ^ b` on two 32-bit signed operands. */
  function Xor32(a: Int32, b: Int32): Int32 {
    Pow2Constants();
    XorBound(ToUnsigned32(a), ToUnsigned32(b), 32);
    ToSigned32(Xor(ToUnsigned32(a), ToUnsigned32(b)))
  }

  // ---------------------------------------------------------------------------
  // Arithmetic facts

  lemma MulNonNegative(a: int, b: int)
    requires a >= 0 && b >= 0
    ensures a * b >= 0
  {
  }

  /** Quotient and remainder are determined by `x == q * d + r, 0 <= r < d`. */
  lemma DivModUnique(x: int, d: int, q: int, r: int)
    requires d > 0 && 0 <= r < d && x == q * d + r
    ensures x / d == q && x % d == r
  {
    var q', r' := x / d, x % d;
    assert x == q' * d + r';
    if q > q' {
      MulNonNegative(q - q' - 1, d);
      assert false;
    } else if q < q' {
      MulNonNegative(q' - q - 1, d);
      assert false;
    }
  }

  lemma {:induction false} Pow2Add(a: nat, b: nat)
    ensures Pow2(a + b) == Pow2(a) * Pow2(b)
  {
    if a > 0 {
      Pow2Add(a - 1, b);
    }
  }

  /** The powers of two the modelled code spells out as literals. */
  lemma Pow2Constants()
    ensures Pow2(8) == 0x100 && Pow2(14) == 0x4000 && Pow2(16) == 0x1_0000
    ensures Pow2(30) == 0x4000_0000 && Pow2(31) == 0x8000_0000 && Pow2(32) == 0x1_0000_0000
  {
    Pow2Add(8, 8);
    Pow2Add(16, 16);
  }

  lemma {:induction false} Pow2Increasing(k: nat, n: nat)
    requires k < n
    ensures Pow2(k) < Pow2(n)
  {
    if k + 1 < n {
      Pow2Increasing(k, n - 1);
    }
  }

  /** Dividing by 2p is halving and then dividing by p. */
  lemma DivModDouble(x: int, p: int)
    requires p > 0
    ensures x / (2 * p) == (x / 2) / p
    ensures x % (2 * p) == 2 * ((x / 2) % p) + x % 2
  {
    var q, r := x / 2, x % 2;
    var a, b := q / p, q % p;
    assert q == a * p + b;
    assert x == a * (2 * p) + (2 * b + r);
    DivModUnique(x, 2 * p, a, 2 * b + r);
  }

  lemma {:induction false} BitOfZero(k: nat)
    ensures !Bit(0, k)
  {
    if k > 0 {
      BitOfZero(k - 1);
    }
  }

  /** A set bit k means the value is at least 2^k. */
  lemma {:induction false} BitImpliesAtLeast(x: nat, k: nat)
    requires Bit(x, k)
    ensures x >= Pow2(k)
  {
    if k > 0 {
      BitImpliesAtLeast(x / 2, k - 1);
    }
  }

  /** Below 2^(n+1), bit n is set exactly when the value is at least 2^n. */
  lemma {:induction false} TopBit(x: nat, n: nat)
    requires x < Pow2(n + 1)
    ensures Bit(x, n) <==> x >= Pow2(n)
  {
    if n > 0 {
      TopBit(x / 2, n - 1);
    }
  }

  // ---------------------------------------------------------------------------
  // Bitwise operators, bit by bit

  lemma {:induction false} BitAnd(x: nat, y: nat, k: nat)
    ensures Bit(And(x, y), k) == (Bit(x, k) && Bit(y, k))
  {
    if x == 0 || y == 0 {
      BitOfZero(k);
    } else if k > 0 {
      BitAnd(x / 2, y / 2, k - 1);
    }
  }

  lemma {:induction false} BitOr(x: nat, y: nat, k: nat)
    ensures Bit(Or(x, y), k) == (Bit(x, k) || Bit(y, k))
  {
    if x == 0 {
      BitOfZero(k);
    } else if y == 0 {
      BitOfZero(k);
    } else if k > 0 {
      BitOr(x / 2, y / 2, k - 1);
    }
  }

  lemma {:induction false} BitXor(x: nat, y: nat, k: nat)
    ensures Bit(Xor(x, y), k) == (Bit(x, k) != Bit(y, k))
  {
    if x == 0 {
      BitOfZero(k);
    } else if y == 0 {
      BitOfZero(k);
    } else if k > 0 {
      assert Xor(x, y) / 2 == Xor(x / 2, y / 2);
      BitXor(x / 2, y / 2, k - 1);
    }
  }

  lemma {:induction false} AndBound(x: nat, y: nat)
    ensures And(x, y) <= x && And(x, y) <= y
  {
    if x != 0 && y != 0 {
      AndBound(x / 2, y / 2);
    }
  }

  lemma {:induction false} XorBound(x: nat, y: nat, n: nat)
    requires x < Pow2(n) && y < Pow2(n)
    ensures Xor(x, y) < Pow2(n)
  {
    if x != 0 && y != 0 {
      XorBound(x / 2, y / 2, n - 1);
    }
  }

  lemma {:induction false} AndSelf(x: nat)
    ensures And(x, x) == x
  {
    if x != 0 {
      AndSelf(x / 2);
    }
  }

  /** Masking with 2^n - 1 keeps the n low bits: `x & (2^n - 1) == x mod 2^n`. */
  lemma {:induction false} AndLowMask(x: nat, n: nat)
    ensures And(x, Pow2(n) - 1) == x % Pow2(n)
  {
    if n == 0 {
      assert Pow2(n) - 1 == 0;
    } else if x == 0 {
    } else {
      var p := Pow2(n - 1);
      var m := 2 * p - 1;
      assert Pow2(n) == 2 * p;
      assert m % 2 == 1 && m / 2 == p - 1;
      AndOddMask(x, m);
      AndLowMask(x / 2, n - 1);
      DivModDouble(x, p);
      assert And(x, m) == 2 * ((x / 2) % p) + x % 2;
      assert x % (2 * p) == 2 * ((x / 2) % p) + x % 2;
    }
  }

  lemma AndOddMask(x: nat, m: nat)
    requires m % 2 == 1
    ensures And(x, m) == 2 * And(x / 2, m / 2) + x % 2
  {
  }

  /** Masking with a single bit tests that bit: `x & 2^k` is 2^k or 0. */
  lemma {:induction false} AndSingleBit(x: nat, k: nat)
    ensures And(x, Pow2(k)) == if Bit(x, k) then Pow2(k) else 0
  {
    if x == 0 {
      BitOfZero(k);
    } else if k > 0 {
      AndSingleBit(x / 2, k - 1);
    }
  }

  lemma Log2OfDouble(x: nat)
    requires x > 0
    ensures Log2(2 * x) == 1 + Log2(x)
  {
  }

  /** The classic power-of-two test: for x > 0, `x & (x - 1) == 0` exactly
      when x is a power of two. */
  lemma {:induction false} PowerOfTwoTest(x: nat)
    requires x > 0
    ensures And(x, x - 1) == 0 <==> IsPowerOfTwo(x)
  {
    if x == 1 {
    } else if x % 2 == 1 {
      var q := x / 2;
      AndSelf(q);
      assert And(x, x - 1) == 2 * q;
      assert Log2(x) >= 1;
      assert Pow2(Log2(x)) % 2 == 0;
    } else {
      var q := x / 2;
      assert And(x, x - 1) == 2 * And(q, q - 1);
      PowerOfTwoTest(q);
      Log2OfDouble(q);
    }
  }

  lemma Log2OfPow2(k: nat)
    ensures Log2(Pow2(k)) == k
  {
    if k > 0 {
      Log2OfPow2(k - 1);
      Log2OfDouble(Pow2(k - 1));
    }
  }

  lemma {:induction false} BitOfPow2(k: nat, j: nat)
    ensures Bit(Pow2(k), j) == (j == k)
  {
    if k == 0 {
      if j > 0 {
        BitOfZero(j - 1);
      }
    } else if j == 0 {
    } else {
      BitOfPow2(k - 1, j - 1);
    }
  }

  lemma {:induction false} BitOfLowMask(n: nat, j: nat)
    ensures Bit(Pow2(n) - 1, j) == (j < n)
  {
    if n == 0 {
      BitOfZero(j);
    } else if j > 0 {
      var p := Pow2(n - 1);
      assert Pow2(n) - 1 == 2 * (p - 1) + 1;
      assert (Pow2(n) - 1) / 2 == p - 1;
      BitOfLowMask(n - 1, j - 1);
    }
  }

  /** The bits of `~(1 << k)` as an unsigned n-bit value: all of the n low bits
      but bit k. */
  lemma {:induction false} BitOfMaskWithout(n: nat, k: nat, j: nat)
    requires k < n
    ensures Pow2(k) < Pow2(n)
    ensures Bit(Pow2(n) - 1 - Pow2(k), j) == (j < n && j != k)
  {
    Pow2Increasing(k, n);
    var v := Pow2(n) - 1 - Pow2(k);
    if j == 0 {
      MaskWithoutParity(n, k);
    } else {
      var h := v / 2;
      if k == 0 {
        assert h == Pow2(n - 1) - 1 by {
          MaskWithoutHalf(n, k);
        }
        BitOfLowMask(n - 1, j - 1);
      } else {
        assert Pow2(k - 1) < Pow2(n - 1) && h == Pow2(n - 1) - 1 - Pow2(k - 1) by {
          MaskWithoutHalf(n, k);
        }
        BitOfMaskWithout(n - 1, k - 1, j - 1);
      }
    }
  }

  lemma MaskWithoutParity(n: nat, k: nat)
    requires k < n
    ensures Pow2(k) < Pow2(n)
    ensures Bit(Pow2(n) - 1 - Pow2(k), 0) == (k != 0)
  {
    Pow2Increasing(k, n);
    var p := Pow2(n - 1);
    assert Pow2(n) == 2 * p;
    if k > 0 {
      var q := Pow2(k - 1);
      assert Pow2(k) == 2 * q;
      assert Pow2(n) - 1 - Pow2(k) == 2 * (p - q - 1) + 1;
    } else {
      assert Pow2(n) - 1 - Pow2(k) == 2 * (p - 1);
    }
  }

  lemma MaskWithoutHalf(n: nat, k: nat)
    requires k < n
    ensures Pow2(k) < Pow2(n)
    ensures k == 0 ==> (Pow2(n) - 1 - Pow2(k)) / 2 == Pow2(n - 1) - 1
    ensures k > 0 ==> Pow2(k - 1) < Pow2(n - 1)
    ensures k > 0 ==> (Pow2(n) - 1 - Pow2(k)) / 2 == Pow2(n - 1) - 1 - Pow2(k - 1)
  {
    Pow2Increasing(k, n);
    var p := Pow2(n - 1);
    assert Pow2(n) == 2 * p;
    if k > 0 {
      Pow2Increasing(k - 1, n - 1);
      var q := Pow2(k - 1);
      assert Pow2(k) == 2 * q;
      assert Pow2(n) - 1 - Pow2(k) == 2 * (p - 1 - q) + 1;
    }
  }

  /** Reducing modulo 2^n keeps exactly the n low bits. */
  lemma {:induction false} BitOfMod(x: nat, n: nat, j: nat)
    ensures Bit(x % Pow2(n), j) == (j < n && Bit(x, j))
  {
    if n == 0 {
      BitOfZero(j);
    } else {
      var p := Pow2(n - 1);
      assert Pow2(n) == 2 * p;
      DivModDouble(x, p);
      var m := x % Pow2(n);
      assert m == 2 * ((x / 2) % p) + x % 2;
      assert m % 2 == x % 2 && m / 2 == (x / 2) % p;
      if j > 0 {
        BitOfMod(x / 2, n - 1, j - 1);
      }
    }
  }

  /** `(2^(n+1) - 1) ^ (2^n - 1) == 2^n`: the all-ones pattern XOR a mask one
      bit shorter leaves the top bit alone. */
  lemma {:induction false} XorOfMasks(n: nat)
    ensures Xor(Pow2(n + 1) - 1, Pow2(n) - 1) == Pow2(n)
  {
    if n > 0 {
      var p := Pow2(n - 1);
      assert Pow2(n) == 2 * p && Pow2(n + 1) == 4 * p;
      assert (Pow2(n + 1) - 1) / 2 == Pow2(n) - 1;
      assert (Pow2(n) - 1) / 2 == p - 1;
      XorOfMasks(n - 1);
    }
  }

  /** Two values below 2^n with the same n low bits are equal. */
  lemma {:induction false} BitsDetermine(x: nat, y: nat, n: nat)
    requires x < Pow2(n) && y < Pow2(n)
    requires forall j | 0 <= j < n :: Bit(x, j) == Bit(y, j)
    ensures x == y
  {
    if n > 0 {
      assert Bit(x, 0) == Bit(y, 0);
      forall j | 0 <= j < n - 1
        ensures Bit(x / 2, j) == Bit(y / 2, j)
      {
        assert Bit(x, j + 1) == Bit(y, j + 1);
      }
      BitsDetermine(x / 2, y / 2, n - 1);
    }
  }

  /** The sign bit of a 32-bit pattern is bit 31. */
  lemma SignBit32(x: Int32)
    ensures Bit(ToUnsigned32(x), 31) <==> x < 0
  {
    Pow2Constants();
    TopBit(ToUnsigned32(x), 31);
  }
}
