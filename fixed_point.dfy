/** The 16.16 fixed-point kernel of src/m_fixed.h.

    A `fixed_t` is a 32-bit signed integer read as value / 2^16. The kernel is
    five expressions over such values: a multiply through a 64-bit intermediate,
    a saturating divide, a modulo whose result is never negative for a positive
    divisor, and an approximate reciprocal by range reduction and table lookup,
    with the approximate divide built from the last and the first.

    Where C leaves an input undefined (abs or negation of INT_MIN, a signed
    overflow, INT_MIN % -1) the function requires that the input is not given. */
module FixedPoint {
  import opened Bits

  const FRACBITS: nat := 16
  const FRACUNIT: int := 0x1_0000

  /** `(unsigned)abs(x)`: the magnitude of x. */
  function Abs(x: int): nat {
    if x < 0 then -x else x
  }

  /** C's integer `/`, which truncates toward zero. */
  function CDiv(x: int, y: int): int
    requires y != 0
  {
    if (x < 0) == (y < 0) then Abs(x) / Abs(y) else -(Abs(x) / Abs(y))
  }

  /** C's integer `%`: the remainder has the magnitude of the remainder of
      the magnitudes and the sign of x. */
  function CRem(x: int, y: int): int
    requires y != 0
  {
    if x < 0 then -(Abs(x) % Abs(y)) else Abs(x) % Abs(y)
  }

  /** C's division identity: `(x / y) * y + x % y == x`, with the remainder
      smaller than the divisor in magnitude. */
  lemma CDivRem(x: int, y: int)
    requires y != 0
    ensures CDiv(x, y) * y + CRem(x, y) == x
    ensures Abs(CRem(x, y)) < Abs(y)
  {
    var q, m := Abs(x) / Abs(y), Abs(x) % Abs(y);
    assert Abs(x) == q * Abs(y) + m;
    if (x < 0) == (y < 0) {
      assert CDiv(x, y) * y == q * Abs(y) || CDiv(x, y) * y == -(q * Abs(y));
    } else {
      assert CDiv(x, y) * y == -(q * Abs(y)) || CDiv(x, y) * y == q * Abs(y);
    }
  }

  // ---------------------------------------------------------------------------
  // FixedMul

  /** The product, shifted back down, fits in `fixed_t`: the cast of
      FixedMul's 64-bit result to 32 bits does not overflow. */
  predicate MulFits(a: Int32, b: Int32) {
    IsInt32(ShiftRight(a * b, FRACBITS))
  }

  /** `(fixed_t)((int64_t) a * b >> FRACBITS)` */
  function FixedMul(a: Int32, b: Int32): Int32
    requires MulFits(a, b)
  {
    ShiftRight(a * b, FRACBITS)
  }

  /** The 64-bit intermediate of FixedMul cannot overflow. */
  lemma ProductFitsInt64(a: Int32, b: Int32)
    ensures -0x8000_0000_0000_0000 <= a * b < 0x8000_0000_0000_0000
  {
    var x, y := Abs(a), Abs(b);
    MulBound(x, y, 0x8000_0000);
    AbsOfProduct(a, b);
  }

  lemma MulBound(x: nat, y: nat, m: nat)
    requires x <= m && y <= m
    ensures x * y <= m * m
  {
    MulNonNegative(m - x, y);
    MulNonNegative(m - y, m);
  }

  lemma AbsOfProduct(a: int, b: int)
    ensures Abs(a * b) == Abs(a) * Abs(b)
  {
    if a < 0 && b < 0 {
      assert a * b == (-a) * (-b);
    } else if a < 0 {
      assert -(a * b) == (-a) * b;
      MulNonNegative(-a, b);
    } else if b < 0 {
      assert -(a * b) == a * (-b);
      MulNonNegative(a, -b);
    } else {
      MulNonNegative(a, b);
    }
  }

  /** FixedMul is the floor of the exact product a * b / 2^16 (the arithmetic
      shift rounds toward minus infinity). */
  lemma FixedMulIsFloor(a: Int32, b: Int32)
    requires MulFits(a, b)
    ensures FixedMul(a, b) * FRACUNIT <= a * b < FixedMul(a, b) * FRACUNIT + FRACUNIT
  {
    Pow2Constants();
  }

  lemma FixedMulCommutes(a: Int32, b: Int32)
    requires MulFits(a, b)
    ensures MulFits(b, a) && FixedMul(a, b) == FixedMul(b, a)
  {
    assert a * b == b * a;
  }

  /** FRACUNIT (1.0) is the unit of FixedMul on every 32-bit value. */
  lemma FixedMulByUnit(a: Int32)
    ensures MulFits(a, FRACUNIT) && FixedMul(a, FRACUNIT) == a
    ensures MulFits(FRACUNIT, a) && FixedMul(FRACUNIT, a) == a
  {
    Pow2Constants();
    assert a * FRACUNIT / FRACUNIT == a;
  }

  lemma FixedMulExamples()
    ensures MulFits(3 * FRACUNIT, 2 * FRACUNIT)
    ensures FixedMul(3 * FRACUNIT, 2 * FRACUNIT) == 6 * FRACUNIT
    ensures MulFits(-1, 1) && FixedMul(-1, 1) == -1
  {
    Pow2Constants();
  }

  // ---------------------------------------------------------------------------
  // FixedDiv

  /** The overflow guard of FixedDiv: `(unsigned)abs(a) >> 14 >= (unsigned)abs(b)`.
      It holds whenever the quotient a * 2^16 / b could reach 2^30 in
      magnitude, and always when b == 0. */
  predicate DivOverflows(a: Int32, b: Int32) {
    ShiftRight(Abs(a), 14) >= Abs(b)
  }

  /** `((a ^ b) >> 31) ^ INT_MAX`: INT_MAX or INT_MIN, chosen by the sign bit
      of a ^ b. */
  function Saturated(a: Int32, b: Int32): Int32 {
    Pow2Constants();
    assert Xor32(a, b) / 0x8000_0000 == (if Xor32(a, b) < 0 then -1 else 0);
    Xor32(ShiftRight(Xor32(a, b), 31), INT_MAX)
  }

  /** `(fixed_t)(((int64_t) a << FRACBITS) / b)` when the guard does not hold;
      the saturated value otherwise. */
  function FixedDiv(a: Int32, b: Int32): Int32
    requires a != INT_MIN && b != INT_MIN
  {
    if DivOverflows(a, b) then Saturated(a, b)
    else
      DivQuotientBound(a, b);
      CDiv(a * Pow2(FRACBITS), b)
  }

  lemma DivBelow(x: nat, d: int, c: int)
    requires d > 0 && x < c * d
    ensures x / d < c
  {
    if x / d >= c {
      MulNonNegative(x / d - c, d);
      assert false;
    }
  }

  /** When the guard does not hold, b is not zero and the quotient stays below
      2^30 in magnitude, so neither the 64-bit division nor the cast back to
      32 bits can fail. */
  lemma DivQuotientBound(a: Int32, b: Int32)
    requires a != INT_MIN && b != INT_MIN && !DivOverflows(a, b)
    ensures b != 0
    ensures Abs(CDiv(a * Pow2(FRACBITS), b)) < 0x4000_0000
  {
    Pow2Constants();
    var x, y := Abs(a), Abs(b);
    assert x / 0x4000 < y;
    assert x == (x / 0x4000) * 0x4000 + x % 0x4000;
    MulNonNegative(y - 1 - x / 0x4000, 0x4000);
    assert x < 0x4000 * y;
    assert Abs(a * Pow2(FRACBITS)) == x * 0x1_0000;
    DivBelow(x * 0x1_0000, y, 0x4000_0000);
  }

  /** The saturated value is INT_MAX when a and b have the same sign bit and
      INT_MIN when they differ. */
  lemma SaturatedValue(a: Int32, b: Int32)
    ensures Saturated(a, b) == if (a < 0) == (b < 0) then INT_MAX else INT_MIN
  {
    Pow2Constants();
    var u, v := ToUnsigned32(a), ToUnsigned32(b);
    var s := Xor32(a, b);
    XorBound(u, v, 32);
    assert ToUnsigned32(s) == Xor(u, v);
    SignBit32(a);
    SignBit32(b);
    SignBit32(s);
    BitXor(u, v, 31);
    assert s < 0 <==> (a < 0) != (b < 0);
    if s < 0 {
      assert ShiftRight(s, 31) == -1;
      XorOfMasks(31);
      assert Xor(0xffff_ffff, 0x7fff_ffff) == 0x8000_0000;
    } else {
      assert ShiftRight(s, 31) == 0;
    }
  }

  /** FixedDiv saturates exactly when its guard holds: it then returns INT_MAX
      for operands with the same sign bit and INT_MIN otherwise; when the guard
      does not hold the result is below 2^30 in magnitude, so it is never one
      of the two saturated values. */
  lemma FixedDivSaturation(a: Int32, b: Int32)
    requires a != INT_MIN && b != INT_MIN
    ensures DivOverflows(a, b) ==>
      FixedDiv(a, b) == if (a < 0) == (b < 0) then INT_MAX else INT_MIN
    ensures !DivOverflows(a, b) ==> Abs(FixedDiv(a, b)) < 0x4000_0000
    ensures DivOverflows(a, b) <==> (FixedDiv(a, b) == INT_MAX || FixedDiv(a, b) == INT_MIN)
  {
    if DivOverflows(a, b) {
      SaturatedValue(a, b);
    } else {
      DivQuotientBound(a, b);
    }
  }

  /** Division by zero never traps: it saturates toward the sign of a, and
      FixedDiv(0, 0) is INT_MAX. */
  lemma FixedDivByZero(a: Int32)
    requires a != INT_MIN
    ensures FixedDiv(a, 0) == if a < 0 then INT_MIN else INT_MAX
  {
    FloorNonNegative(Abs(a), Pow2(14));
    SaturatedValue(a, 0);
  }

  /** When FixedDiv does not saturate it is a * 2^16 / b truncated toward
      zero: its magnitude is the floor of |a| * 2^16 / |b| and its sign is the
      sign of the exact quotient. */
  lemma FixedDivTruncates(a: Int32, b: Int32)
    requires a != INT_MIN && b != INT_MIN && !DivOverflows(a, b)
    ensures b != 0
    ensures Abs(FixedDiv(a, b)) * Abs(b) <= Abs(a) * FRACUNIT < (Abs(FixedDiv(a, b)) + 1) * Abs(b)
    ensures FixedDiv(a, b) > 0 ==> (a < 0) == (b < 0)
    ensures FixedDiv(a, b) < 0 ==> (a < 0) != (b < 0)
  {
    DivQuotientBound(a, b);
    QuotientMagnitude(a, b);
    FloorBounds(Abs(a) * FRACUNIT, Abs(b));
  }

  lemma QuotientMagnitude(a: Int32, b: Int32)
    requires a != INT_MIN && b != INT_MIN && !DivOverflows(a, b)
    ensures b != 0
    ensures Abs(FixedDiv(a, b)) == Abs(a) * FRACUNIT / Abs(b)
    ensures FixedDiv(a, b) > 0 ==> (a < 0) == (b < 0)
    ensures FixedDiv(a, b) < 0 ==> (a < 0) != (b < 0)
  {
    DivQuotientBound(a, b);
    UnitIsPow2();
    var x := a * FRACUNIT;
    assert FixedDiv(a, b) == CDiv(x, b);
    ScaleByUnit(a);
    CDivSign(x, b);
  }

  lemma UnitIsPow2()
    ensures Pow2(FRACBITS) == FRACUNIT
  {
    Pow2Constants();
  }

  lemma ScaleByUnit(a: int)
    ensures Abs(a * FRACUNIT) == Abs(a) * FRACUNIT
    ensures a * FRACUNIT < 0 <==> a < 0
  {
  }

  lemma CDivSign(x: int, y: int)
    requires y != 0
    ensures Abs(CDiv(x, y)) == Abs(x) / Abs(y)
    ensures CDiv(x, y) > 0 ==> (x < 0) == (y < 0)
    ensures CDiv(x, y) < 0 ==> (x < 0) != (y < 0)
  {
    FloorNonNegative(Abs(x), Abs(y));
  }

  lemma FloorNonNegative(x: nat, y: int)
    requires y > 0
    ensures x / y >= 0
  {
  }

  lemma FloorBounds(x: nat, y: int)
    requires y > 0
    ensures (x / y) * y <= x < (x / y + 1) * y
  {
    var q := x / y;
    assert x == q * y + x % y;
    assert (q + 1) * y == q * y + y;
  }

  lemma FixedDivExamples()
    ensures FixedDiv(7 * FRACUNIT, 2 * FRACUNIT) == 3 * FRACUNIT + 32768
    ensures FixedDiv(0, 0) == INT_MAX
    ensures FixedDiv(INT_MAX, FRACUNIT) == INT_MAX
    ensures FixedDiv(-FRACUNIT, 0) == INT_MIN
  {
    Pow2Constants();
    FixedDivByZero(0);
    FixedDivByZero(-FRACUNIT);
    FixedDivSaturation(INT_MAX, FRACUNIT);
  }

  /** Dividing a product by one of its factors gives the other factor back,
      to within one unit in the last place, when that factor is at least 1.0
      in magnitude: the product loses less than one unit to the floor, and the
      division by b scales that loss below one. */
  lemma FixedMulDivRoundTrip(a: Int32, b: Int32)
    requires b != INT_MIN && FRACUNIT <= Abs(b)
    requires MulFits(a, b) && FixedMul(a, b) != INT_MIN
    requires !DivOverflows(FixedMul(a, b), b)
    ensures Abs(FixedDiv(FixedMul(a, b), b) - a) <= 1
  {
    var m := FixedMul(a, b);
    FixedMulIsFloor(a, b);
    UnitIsPow2();
    DivQuotientBound(m, b);
    assert FixedDiv(m, b) == CDiv(m * FRACUNIT, b);
    NearQuotient(m * FRACUNIT, b, a);
  }

  /** A truncated quotient of x by y is within one of any a for which a * y
      is closer to x than y. */
  lemma NearQuotient(x: int, y: int, a: int)
    requires y != 0 && Abs(x - a * y) < Abs(y)
    ensures Abs(CDiv(x, y) - a) <= 1
  {
    CDivRem(x, y);
    var q, r := CDiv(x, y), CRem(x, y);
    assert q * y == x - r;
    assert (q - a) * y == q * y - a * y;
    SmallMultiple(q - a, y, x - a * y, r);
  }

  /** A multiple of y that is the difference of two values smaller than y in
      magnitude is -y, 0 or y. */
  lemma SmallMultiple(k: int, y: int, e: int, r: int)
    requires y != 0 && k * y == e - r && Abs(e) < Abs(y) && Abs(r) < Abs(y)
    ensures Abs(k) <= 1
  {
    AbsOfProduct(k, y);
    if Abs(k) >= 2 {
      AtLeastDouble(Abs(k), Abs(y));
      assert false;
    }
  }

  lemma AtLeastDouble(n: nat, d: nat)
    requires n >= 2
    ensures n * d >= 2 * d
  {
    MulNonNegative(n - 2, d);
    assert n * d == (n - 2) * d + 2 * d;
  }

  /** Below 1.0 the round trip fails: the product 5 * 1 (raw values) floors
      to 0, and 0 / 1 is 0, not 5. */
  lemma FixedMulDivSmallDivisor()
    ensures MulFits(5, 1) && FixedMul(5, 1) == 0
    ensures FixedDiv(FixedMul(5, 1), 1) == 0
  {
    Pow2Constants();
    UnitIsPow2();
  }

  // ---------------------------------------------------------------------------
  // FixedMod

  /** The inputs on which FixedMod's C expression is defined. A zero `a`
      returns before anything else is evaluated; otherwise `b - 1` must not
      overflow, `a % b` must not be INT_MIN % -1, and the correction `r + b`
      (reached only with a negative remainder) must not overflow. */
  predicate ModDefined(a: Int32, b: Int32) {
    && (a == 0 || b != INT_MIN)
    && !(a == INT_MIN && b == -1)
    && (b < 0 ==> CRem(a, b) >= 0 || CRem(a, b) + b >= INT_MIN)
  }

  /** General path: `r = a % b; return r < 0 ? r + b : r;` */
  function ModGeneral(a: Int32, b: Int32): int
    requires b != 0
  {
    var r := CRem(a, b);
    if r < 0 then r + b else r
  }

  /** Fast path: `a & (b - 1)` */
  function ModMask(a: Int32, b: Int32): Int32
    requires b != INT_MIN
  {
    And32(a, b - 1)
  }

  /** The path test `b & (b - 1)`: zero selects the fast path. */
  function PathTest(b: Int32): Int32
    requires b != INT_MIN
  {
    And32(b, b - 1)
  }

  function FixedMod(a: Int32, b: Int32): Int32
    requires ModDefined(a, b)
  {
    if a == 0 then 0
    else if PathTest(b) != 0 then ModGeneral(a, b)
    else ModMask(a, b)
  }

  /** The fast path is chosen for b == 0 and for the positive powers of two,
      and never for a negative b. */
  lemma PathTestSelects(b: Int32)
    requires b != INT_MIN
    ensures b > 0 ==> (PathTest(b) == 0 <==> IsPowerOfTwo(b))
    ensures b == 0 ==> PathTest(b) == 0
    ensures b < 0 ==> PathTest(b) != 0
  {
    Pow2Constants();
    var u, v := ToUnsigned32(b), ToUnsigned32(b - 1);
    AndBound(u, v);
    if b > 0 {
      PowerOfTwoTest(b);
    } else if b < 0 {
      SignBit32(b);
      SignBit32(b - 1);
      BitAnd(u, v, 31);
      BitImpliesAtLeast(And(u, v), 31);
    }
  }

  /** For a positive divisor that is a power of two, the mask gives the
      Euclidean residue a mod b, for negative a too. */
  lemma ModMaskIsResidue(a: Int32, k: nat)
    requires k <= 30
    ensures Pow2(k) <= INT_MAX
    ensures ModMask(a, Pow2(k)) == a % Pow2(k)
  {
    MaskValue(a, k);
    UnsignedResidue(a, k);
  }

  lemma MaskValue(a: Int32, k: nat)
    requires k <= 30
    ensures Pow2(k) <= INT_MAX
    ensures ModMask(a, Pow2(k)) == ToUnsigned32(a) % Pow2(k)
  {
    Pow2Constants();
    Pow2Increasing(k, 31);
    var b := Pow2(k);
    var u := ToUnsigned32(a);
    AndLowMask(u, k);
    assert ToUnsigned32(b - 1) == b - 1;
  }

  lemma UnsignedResidue(a: Int32, k: nat)
    requires k <= 32
    ensures ToUnsigned32(a) % Pow2(k) == a % Pow2(k)
  {
    if a < 0 {
      var b, m := Pow2(k), Pow2(32 - k);
      Pow2Split(k);
      ModAddMultiple(a, b, m);
    }
  }

  lemma Pow2Split(k: nat)
    requires k <= 32
    ensures Pow2(32 - k) * Pow2(k) == 0x1_0000_0000
  {
    Pow2Constants();
    Pow2Add(k, 32 - k);
  }

  /** Adding a multiple of b does not change the residue modulo b. */
  lemma ModAddMultiple(x: int, b: int, m: int)
    requires b > 0
    ensures (x + m * b) % b == x % b
  {
    var q, r := x / b, x % b;
    assert x + m * b == (q + m) * b + r;
    DivModUnique(x + m * b, b, q + m, r);
  }

  /** The general path gives the Euclidean residue for every positive b. */
  lemma ModGeneralIsResidue(a: Int32, b: Int32)
    requires b > 0
    ensures ModGeneral(a, b) == a % b
  {
    var m := Abs(a) % b;
    var q := Abs(a) / b;
    assert Abs(a) == q * b + m;
    if a < 0 {
      if m == 0 {
        DivModUnique(a, b, -q, 0);
      } else {
        DivModUnique(a, b, -q - 1, b - m);
      }
    } else {
      DivModUnique(a, b, q, m);
    }
  }

  /** For a positive divisor FixedMod is the mathematical (Euclidean) modulo:
      its result lies in [0, b) and differs from a by a multiple of b; in
      particular FixedMod(0, b) == 0. */
  lemma FixedModIsEuclidean(a: Int32, b: Int32)
    requires b > 0
    ensures ModDefined(a, b)
    ensures FixedMod(a, b) == a % b
    ensures 0 <= FixedMod(a, b) < b
  {
    FixedModResidue(a, b);
  }

  lemma FixedModResidue(a: Int32, b: Int32)
    requires b > 0
    ensures ModDefined(a, b)
    ensures FixedMod(a, b) == a % b
  {
    if a != 0 {
      PathTestSelects(b);
      if PathTest(b) != 0 {
        ModGeneralIsResidue(a, b);
      } else {
        var k := Log2(b);
        if k > 30 {
          if k > 31 {
            Pow2Increasing(31, k);
          }
          Pow2Constants();
          assert false;
        }
        ModMaskIsResidue(a, k);
      }
    }
  }

  /** For b = 2^k the fast path and the general path agree on every a, and
      FixedMod takes the fast path. */
  lemma MaskPathAgrees(a: Int32, k: nat)
    requires k <= 30
    ensures Pow2(k) <= INT_MAX
    ensures ModMask(a, Pow2(k)) == ModGeneral(a, Pow2(k))
    ensures a != 0 ==> FixedMod(a, Pow2(k)) == ModMask(a, Pow2(k))
  {
    Pow2Constants();
    Pow2Increasing(k, 31);
    ModMaskIsResidue(a, k);
    ModGeneralIsResidue(a, Pow2(k));
    Log2OfPow2(k);
    PathTestSelects(Pow2(k));
  }

  /** With a zero divisor FixedMod takes the fast path and returns a itself:
      `a & -1` is a. */
  lemma FixedModByZero(a: Int32)
    ensures ModDefined(a, 0)
    ensures FixedMod(a, 0) == a
  {
    if a != 0 {
      ZeroDivisorTakesMask(a);
      MaskAllOnes(a);
    }
  }

  lemma ZeroDivisorTakesMask(a: Int32)
    requires a != 0
    ensures FixedMod(a, 0) == ModMask(a, 0)
  {
    PathTestOfZero();
  }

  lemma PathTestOfZero()
    ensures PathTest(0) == 0
  {
    PathTestSelects(0);
  }

  lemma Pow2Of32()
    ensures Pow2(32) == 0x1_0000_0000
  {
    Pow2Constants();
  }

  lemma MaskAllOnes(a: Int32)
    ensures ModMask(a, 0) == a
  {
    var u := ToUnsigned32(a);
    Pow2Of32();
    AndLowMask(u, 32);
  }

  /** With a negative divisor the correction adds b, which makes the result
      more negative: the result is a mod |b| when that is zero or a >= 0, and
      a mod |b| + 2b (in (2b, b)) otherwise. The range [0, |b|) does not hold. */
  lemma FixedModNegativeDivisor(a: Int32, b: Int32)
    requires b < 0 && ModDefined(a, b)
    ensures FixedMod(a, b) == if a < 0 && a % Abs(b) != 0 then a % Abs(b) + 2 * b else a % Abs(b)
    ensures FixedMod(a, b) < 0 <==> a < 0 && a % Abs(b) != 0
  {
    if a != 0 {
      PathTestSelects(b);
      var d := -b;
      ModGeneralIsResidue(a, d);
      assert CRem(a, b) == CRem(a, d);
    }
  }

  /** FixedMod(0, b) is 0 for every 32-bit b, INT_MIN and 0 included: the
      zero test comes before `b - 1` is computed. */
  lemma FixedModOfZero(b: Int32)
    ensures ModDefined(0, b)
    ensures FixedMod(0, b) == 0
  {
  }

  /** -1.0 mod 4.0 is 3.0, by the general path. */
  lemma FixedModExamples()
    ensures FixedMod(-FRACUNIT, 4 * FRACUNIT) == 3 * FRACUNIT
  {
    FixedModIsEuclidean(-FRACUNIT, 4 * FRACUNIT);
  }

  /** -1.0 mod 1/16 is 0, and the mask path and the general path agree. */
  lemma FixedModMaskExample()
    ensures FixedMod(-FRACUNIT, 4096) == ModGeneral(-FRACUNIT, 4096) == 0
  {
    Pow2Twelve();
    MaskPathAgrees(-FRACUNIT, 12);
    FixedModIsEuclidean(-FRACUNIT, 4096);
  }

  lemma Pow2Twelve()
    ensures Pow2(12) == 4096
  {
    Pow2Add(6, 6);
  }

  /** -1.0 mod -3.0 is -4.0 rather than -1.0 or 2.0. */
  lemma FixedModNegativeExample()
    ensures ModDefined(-FRACUNIT, -3 * FRACUNIT)
    ensures FixedMod(-FRACUNIT, -3 * FRACUNIT) == -4 * FRACUNIT
  {
    var a, b := -FRACUNIT, -3 * FRACUNIT;
    assert CRem(a, b) == -FRACUNIT;
    assert a % -b == 2 * FRACUNIT;
    FixedModNegativeDivisor(a, b);
  }

  // ---------------------------------------------------------------------------
  // FixedReciprocal and FixedApproxDiv

  /** The reciprocal table of m_recip.h, which is not part of this model: an
      immutable sequence with an entry for every magnitude 0..FRACUNIT. No entry
      is INT_MIN, so negating a looked-up value cannot overflow. */
  predicate ValidTable(table: seq<Int32>) {
    |table| > FRACUNIT && forall i | 0 <= i < |table| :: table[i] != INT_MIN
  }

  /** Range reduction: halve m until it is at most FRACUNIT. Returns the
      reduced value and the number of halvings; the reduced value is m shifted
      right by that number. */
  function Reduce(m: nat): (p: (nat, nat))
    ensures p.0 <= FRACUNIT
    ensures p.0 == ShiftRight(m, p.1)
  {
    if m <= FRACUNIT then (m, 0)
    else
      var q := Reduce(m / 2);
      DivModDouble(m, Pow2(q.1));
      (q.0, q.1 + 1)
  }

  /** Each halving at most halves the bound: from a magnitude of at most
      2^(16 + k), at most k halvings are made. */
  lemma {:induction false} ReduceShiftBound(m: nat, k: nat)
    requires m <= Pow2(FRACBITS + k)
    ensures Reduce(m).1 <= k
  {
    Pow2Constants();
    if m > FRACUNIT {
      if k == 0 {
        assert false;
      }
      assert Pow2(FRACBITS + k) == 2 * Pow2(FRACBITS + k - 1);
      ReduceShiftBound(m / 2, k - 1);
    }
  }

  /** The number of halvings is the least one that brings m within the
      table: none exactly when m <= FRACUNIT, and one fewer would leave it
      above FRACUNIT. */
  lemma {:induction false} ReduceIsLeastShift(m: nat)
    ensures Reduce(m).1 == 0 <==> m <= FRACUNIT
    ensures Reduce(m).1 > 0 ==> ShiftRight(m, Reduce(m).1 - 1) > FRACUNIT
  {
    if m > FRACUNIT {
      var s := Reduce(m / 2).1;
      if s > 0 {
        ReduceIsLeastShift(m / 2);
        DivModDouble(m, Pow2(s - 1));
      }
    }
  }

  /** For every 32-bit input the loop makes at most 15 halvings, so the table
      index lies in [0, FRACUNIT]. */
  lemma ReduceForInt32(v: Int32)
    requires v != INT_MIN
    ensures Reduce(Abs(v)).1 <= 15
    ensures 0 <= Reduce(Abs(v)).0 <= FRACUNIT
  {
    Pow2Constants();
    ReduceShiftBound(Abs(v), 15);
  }

  lemma ShiftRightBounds(x: int, n: nat)
    ensures x >= 0 ==> 0 <= ShiftRight(x, n) <= x
    ensures x < 0 ==> x <= ShiftRight(x, n) < 0
  {
    var d := Pow2(n);
    var q, r := x / d, x % d;
    assert x == q * d + r && 0 <= r < d;
    if x >= 0 {
      FloorQuotientNonNegative(x, d, q, r);
    } else {
      FloorQuotientNegative(x, d, q, r);
    }
  }

  lemma FloorQuotientNonNegative(x: int, d: int, q: int, r: int)
    requires x >= 0 && d >= 1 && 0 <= r < d && x == q * d + r
    ensures 0 <= q <= x
  {
    if q < 0 {
      MulNonNegative(-q - 1, d);
      assert false;
    }
    MulNonNegative(q, d - 1);
  }

  lemma FloorQuotientNegative(x: int, d: int, q: int, r: int)
    requires x < 0 && d >= 1 && 0 <= r < d && x == q * d + r
    ensures x <= q < 0
  {
    if q >= 0 {
      MulNonNegative(q, d);
      assert false;
    }
    if q < x {
      MulNonNegative(x - 1 - q, d);
      MulNonNegative(-x, d - 1);
      assert false;
    }
  }

  /** What FixedReciprocal computes: the table entry for the reduced
      magnitude, shifted right by the number of halvings, with the sign of v.
      FixedReciprocal(0) reads table[0] unguarded. */
  function Reciprocal(table: seq<Int32>, v: Int32): Int32
    requires ValidTable(table) && v != INT_MIN
  {
    var p := Reduce(Abs(v));
    var result := ShiftRight(table[p.0], p.1);
    ShiftRightBounds(table[p.0], p.1);
    if v < 0 then -result else result
  }

  /** The loop of FixedReciprocal: `while (val > FRACUNIT) { val >>= 1; shift++; }` */
  method FixedReciprocal(table: seq<Int32>, v: Int32) returns (r: Int32)
    requires ValidTable(table) && v != INT_MIN
    ensures r == Reciprocal(table, v)
  {
    var val: nat := if v < 0 then -v else v;
    var shift: nat := 0;
    while val > FRACUNIT
      invariant Reduce(val).0 == Reduce(Abs(v)).0
      invariant Reduce(val).1 + shift == Reduce(Abs(v)).1
      decreases val
    {
      val := val / 2;
      shift := shift + 1;
    }
    var result := ShiftRight(table[val], shift);
    ShiftRightBounds(table[val], shift);
    r := if v < 0 then -result else result;
  }

  /** Within the table's range no reduction happens: the result is the
      table entry itself, with the sign of v. */
  lemma ReciprocalInTable(table: seq<Int32>, v: Int32)
    requires ValidTable(table) && v != INT_MIN && Abs(v) <= FRACUNIT
    ensures Reciprocal(table, v) == if v < 0 then -table[Abs(v)] else table[Abs(v)]
  {
    Pow2Constants();
  }

  /** The reciprocal is odd: negating a nonzero input negates the result. */
  lemma ReciprocalIsOdd(table: seq<Int32>, v: Int32)
    requires ValidTable(table) && v != INT_MIN && v != 0
    ensures Reciprocal(table, -v) == -Reciprocal(table, v)
  {
    assert Abs(-v) == Abs(v);
  }

  /** `FixedMul(a, FixedReciprocal(b))`: no logic of its own. */
  method FixedApproxDiv(table: seq<Int32>, a: Int32, b: Int32) returns (r: Int32)
    requires ValidTable(table) && b != INT_MIN
    requires MulFits(a, Reciprocal(table, b))
    ensures r == FixedMul(a, Reciprocal(table, b))
    ensures Abs(b) <= FRACUNIT ==>
      r == FixedMul(a, if b < 0 then -table[Abs(b)] else table[Abs(b)])
  {
    var recip := FixedReciprocal(table, b);
    r := FixedMul(a, recip);
    if Abs(b) <= FRACUNIT {
      ReciprocalInTable(table, b);
    }
  }
}
