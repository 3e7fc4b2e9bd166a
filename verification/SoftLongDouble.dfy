/**
 The 80-bit floating-point encoding: a 64-bit mantissa with explicit integer bit, a
 15-bit exponent of bias 0x3fff and a sign. Magnitudes are counted in units of the
 least denormal, 2^-16445, so that they are whole numbers.
 */
module SoftLongDouble {
  import opened Powers

  type Mantissa = m: nat | m < 0x1_0000_0000_0000_0000
  type Exponent = e: nat | e < 0x8000
  type Bit = b: nat | b < 2

  datatype Soft = Soft(mantissa: Mantissa, exponent: Exponent, sign: Bit)

  const INTEGER_BIT: nat := 0x8000_0000_0000_0000
  const BIAS: nat := 0x3fff
  const INFINITE: nat := 0x7fff

  /** Stores into bit fields of 15 and 1 bits truncate. */
  function Make(mantissa: Mantissa, exp: int, sign: int := 0): Soft
  {
    Soft(mantissa, exp % 0x8000, sign % 2)
  }

  predicate Finite(x: Soft) { x.exponent < INFINITE }

  /** The encodings the processor itself produces: the integer bit is set exactly when
      the exponent is not zero. */
  predicate WellFormed(x: Soft)
  {
    Finite(x) && (x.exponent != 0 <==> INTEGER_BIT <= x.mantissa)
  }

  predicate Normal(x: Soft) { WellFormed(x) && x.exponent != 0 }

  /** mantissa * 2^(exponent - bias - 63) in units of 2^(1 - bias - 63); exponent 0
      counts as 1. */
  function Magnitude(x: Soft): nat
  {
    x.mantissa * Pow2(if x.exponent == 0 then 0 else x.exponent - 1)
  }

  function Value(x: Soft): int
  {
    var m: int := Magnitude(x);
    if x.sign == 1 then -m else m
  }

  /** What the fields are worth: the unit is the least denormal, the mantissa counts, each
      step of the exponent doubles, except that the first does not, and the sign negates. */
  lemma ValueOfFields(m: Mantissa, e: Exponent)
    ensures Value(Soft(1, 0, 0)) == 1 && Value(Soft(m, 0, 0)) == m
    ensures Value(Soft(m, 1, 0)) == Value(Soft(m, 0, 0))
    ensures 0 < e < 0x7fff ==> Value(Soft(m, e + 1, 0)) == 2 * Value(Soft(m, e, 0))
    ensures Value(Soft(m, e, 1)) == -Value(Soft(m, e, 0))
  {
    assert Pow2(0) == 1;
    if 0 < e < 0x7fff {
      assert Pow2(e) == 2 * Pow2(e - 1);
      assert m * (2 * Pow2(e - 1)) == 2 * (m * Pow2(e - 1));
    }
  }

  /** The fields are stored as given, as far as they fit: stores keep the low bits. */
  lemma FieldsAreStored(m: Mantissa, exp: int, sign: int)
    ensures Make(m, exp, sign).mantissa == m
    ensures 0 <= exp < 0x8000 ==> Make(m, exp, sign).exponent == exp
    ensures 0 <= sign < 2 ==> Make(m, exp, sign).sign == sign
    ensures (exp - Make(m, exp, sign).exponent) % 0x8000 == 0 && (sign - Make(m, exp, sign).sign) % 2 == 0
    ensures Make(m, exp).sign == 0
  {
  }

  // ----- order -----

  predicate LexLess(x: Soft, y: Soft)
  {
    x.exponent < y.exponent || (x.exponent == y.exponent && x.mantissa < y.mantissa)
  }

  lemma TimesMonotone(a: nat, b: nat, p: nat, q: nat)
    requires a <= b && p <= q
    ensures a * p <= b * q
  {
    assert a * p <= b * p <= b * q;
  }

  lemma HigherExponentIsLarger(x: Soft, y: Soft)
    requires WellFormed(x) && WellFormed(y) && x.exponent < y.exponent
    ensures Magnitude(x) < Magnitude(y)
  {
    var q := Pow2(y.exponent - 1);
    TimesMonotone(INTEGER_BIT, y.mantissa, q, q);
    if x.exponent == 0 {
      TimesMonotone(INTEGER_BIT, INTEGER_BIT, 1, q);
    } else {
      var p := Pow2(x.exponent - 1);
      Pow2Grows(x.exponent, y.exponent - 1);
      assert Pow2(x.exponent) == 2 * p;
      TimesMonotone(x.mantissa + 1, 2 * INTEGER_BIT, p, p);
      assert (x.mantissa + 1) * p == x.mantissa * p + p;
      TimesMonotone(INTEGER_BIT, INTEGER_BIT, 2 * p, q);
      assert (2 * INTEGER_BIT) * p == INTEGER_BIT * (2 * p);
    }
  }

  lemma SameExponentOrder(x: Soft, y: Soft)
    requires x.exponent == y.exponent && x.mantissa < y.mantissa
    ensures Magnitude(x) < Magnitude(y)
  {
    var p := Pow2(if x.exponent == 0 then 0 else x.exponent - 1);
    assert (y.mantissa - x.mantissa) * p == y.mantissa * p - x.mantissa * p;
    TimesMonotone(1, y.mantissa - x.mantissa, 1, p);
  }

  /** Numeric order of well-formed magnitudes is the lexicographic order of exponent
      and mantissa; so equal magnitudes have equal encodings. */
  lemma OrderIsLexicographic(x: Soft, y: Soft)
    requires WellFormed(x) && WellFormed(y)
    ensures Magnitude(x) < Magnitude(y) <==> LexLess(x, y)
    ensures LexLess(x, y) <==> x.exponent < y.exponent || (x.exponent == y.exponent && x.mantissa < y.mantissa)
    ensures Magnitude(x) == Magnitude(y) <==> x.exponent == y.exponent && x.mantissa == y.mantissa
  {
    if x.exponent < y.exponent {
      HigherExponentIsLarger(x, y);
    } else if y.exponent < x.exponent {
      HigherExponentIsLarger(y, x);
    } else if x.mantissa < y.mantissa {
      SameExponentOrder(x, y);
    } else if y.mantissa < x.mantissa {
      SameExponentOrder(y, x);
    }
  }

  /** The ten bytes of the packed structure, read as one number. */
  function Packed(x: Soft): nat
  {
    x.mantissa + 0x1_0000_0000_0000_0000 * (x.exponent + 0x8000 * x.sign)
  }

  /** Mantissa in the low 64 bits, exponent in the next 15, sign on top. */
  lemma PackedFields(x: Soft, y: Soft)
    ensures Packed(y) - Packed(x) ==
            (y.mantissa - x.mantissa) + 0x1_0000_0000_0000_0000 * (y.exponent - x.exponent)
            + 0x8000_0000_0000_0000_0000 * (y.sign - x.sign)
    ensures x == Soft(0, 0, 0) ==> Packed(x) == 0
  {
  }

  /** Non-negative numbers compare like their packed encodings. */
  lemma PackedOrder(x: Soft, y: Soft)
    requires WellFormed(x) && WellFormed(y) && x.sign == 0 && y.sign == 0
    ensures Value(x) < Value(y) <==> Packed(x) < Packed(y)
  {
    OrderIsLexicographic(x, y);
  }

  // ----- the limits -----

  const LDBL_MAX := Make(0xffff_ffff_ffff_ffff, 0x7ffe)
  const LDBL_MIN := Make(0x8000_0000_0000_0000, 1)
  const LDBL_EPSILON := Make(0x8000_0000_0000_0000, 0x3fff - 63)
  const LDBL_DIG: nat := 18
  const LDBL_MANT_DIG: nat := 64
  const LDBL_MAX_EXP: int := 16384
  const LDBL_MIN_EXP: int := -16381
  const LDBL_MAX_10_EXP: int := 4932
  const LDBL_MIN_10_EXP: int := -4932

  const ONE := Make(0x8000_0000_0000_0000, 0x3fff)
  const AFTER_ONE := Make(0x8000_0000_0000_0001, 0x3fff)

  /** 2^k as a number of units. */
  function Units(k: int): nat
    requires -16445 <= k
  {
    Pow2(k + 16445)
  }

  lemma UnitsArePowers(k: int, one: Soft)
    requires -16445 <= k && IsOne(one)
    ensures Units(k + 1) == 2 * Units(k) && Value(one) == Units(one.exponent - BIAS)
  {
    PowerEncoding(one);
  }

  lemma IntegerBitIsPower()
    ensures Pow2(63) == INTEGER_BIT
  {
    Pow2At64();
  }

  /** The mantissa that is the integer bit alone stands for a power of two. */
  lemma PowerEncoding(x: Soft)
    requires x.mantissa == INTEGER_BIT && x.exponent != 0
    ensures Magnitude(x) == Units(x.exponent - BIAS)
  {
    IntegerBitIsPower();
    Pow2Add(63, x.exponent - 1);
  }

  /** Two encodings that differ in the last mantissa bit differ by one unit in the last place. */
  lemma LastPlace(x: Soft, y: Soft)
    requires x.exponent == y.exponent != 0 && y.mantissa == x.mantissa + 1
    ensures Magnitude(y) - Magnitude(x) == Units(x.exponent - BIAS - 63)
  {
    var p := Pow2(x.exponent - 1);
    assert (x.mantissa + 1) * p == x.mantissa * p + p;
  }

  /** The mantissa of all ones is one unit in the last place below the next power of two. */
  lemma AllOnesEncoding(x: Soft)
    requires x.mantissa == 2 * INTEGER_BIT - 1 && x.exponent != 0
    ensures Magnitude(x) == Units(x.exponent - BIAS + 1) - Units(x.exponent - BIAS - 63)
  {
    var p := Pow2(x.exponent - 1);
    IntegerBitIsPower();
    Pow2Add(64, x.exponent - 1);
    assert (2 * INTEGER_BIT - 1) * p == 2 * INTEGER_BIT * p - p;
  }

  predicate Encodes(x: Soft, mantissa: nat, exponent: nat)
  {
    x.mantissa == mantissa && x.exponent == exponent && x.sign == 0
  }

  // The limits as arguments of a lemma, so that their powers are not computed.
  predicate IsMax(x: Soft) { Encodes(x, 0xffff_ffff_ffff_ffff, 0x7ffe) }
  predicate IsMin(x: Soft) { Encodes(x, INTEGER_BIT, 1) }
  predicate IsEpsilon(x: Soft) { Encodes(x, INTEGER_BIT, 0x3fff - 63) }

  predicate IsOne(x: Soft) { Encodes(x, INTEGER_BIT, BIAS) }

  lemma TheLimits()
    ensures IsMax(LDBL_MAX) && IsMin(LDBL_MIN) && IsEpsilon(LDBL_EPSILON)
    ensures IsOne(ONE) && Encodes(AFTER_ONE, INTEGER_BIT + 1, BIAS)
  {
  }

  /** LDBL_MAX bounds every finite encoding, well-formed or not. */
  lemma MaxIsLargest(x: Soft, max: Soft)
    requires Finite(x) && IsMax(max)
    ensures WellFormed(max) && -Value(max) <= Value(x) <= Value(max)
  {
    var k := if x.exponent == 0 then 0 else x.exponent - 1;
    Pow2Grows(k, max.exponent - 1);
    TimesMonotone(x.mantissa, max.mantissa, Pow2(k), Pow2(max.exponent - 1));
  }

  /** LDBL_MIN is the least positive normal number. */
  lemma MinIsLeastNormal(x: Soft, min: Soft)
    requires Normal(x) && IsMin(min)
    ensures Normal(min) && 0 < Value(min)
    ensures 0 < Value(x) ==> Value(min) <= Value(x)
  {
    OrderIsLexicographic(x, min);
    assert Pow2(0) == 1;
  }

  /** LDBL_EPSILON is the gap between 1 and the next larger number. */
  lemma EpsilonIsGapAfterOne(x: Soft, one: Soft, next: Soft, epsilon: Soft)
    requires WellFormed(x) && IsEpsilon(epsilon)
    requires IsOne(one) && Encodes(next, INTEGER_BIT + 1, BIAS)
    ensures WellFormed(one) && WellFormed(next) && WellFormed(epsilon)
    ensures Value(one) == Units(one.exponent - BIAS) && Value(next) - Value(one) == Value(epsilon)
    ensures Value(one) < Value(x) ==> Value(next) <= Value(x)
  {
    PowerEncoding(one);
    OrderIsLexicographic(one, x);
    OrderIsLexicographic(x, next);
    LastPlace(one, next);
    PowerEncoding(epsilon);
  }

  /** The three bounds for the header's own constants. */
  lemma LimitsBound(x: Soft)
    ensures x.exponent < 0x7fff ==> -Value(LDBL_MAX) <= Value(x) <= Value(LDBL_MAX)
    ensures 0 < x.exponent < 0x7fff && 0x8000_0000_0000_0000 <= x.mantissa && x.sign == 0 ==>
              Value(LDBL_MIN) <= Value(x)
    ensures (x.exponent < 0x7fff && (x.exponent != 0 <==> 0x8000_0000_0000_0000 <= x.mantissa) &&
             Value(ONE) < Value(x))
            ==> Value(ONE) + Value(LDBL_EPSILON) <= Value(x)
  {
    TheLimits();
    if Finite(x) {
      MaxIsLargest(x, LDBL_MAX);
    }
    if Normal(x) {
      MinIsLeastNormal(x, LDBL_MIN);
    }
    if WellFormed(x) {
      EpsilonIsGapAfterOne(x, ONE, AFTER_ONE, LDBL_EPSILON);
    }
  }

  /** The characteristics satisfy the formulas of section 5.2.4.2.2 of C11 for base 2 and
      p = LDBL_MANT_DIG: max = (1 - 2^-p) * 2^emax, min = 2^(emin - 1), epsilon = 2^(1 - p). */
  lemma LimitsMatchFormulas(max: Soft, min: Soft, epsilon: Soft, p: nat, emax: int, emin: int)
    requires IsMax(max) && IsMin(min) && IsEpsilon(epsilon)
    requires p == LDBL_MANT_DIG && emax == LDBL_MAX_EXP && emin == LDBL_MIN_EXP
    ensures Value(max) == Units(emax) - Units(emax - p)
    ensures Value(min) == Units(emin - 1)
    ensures Value(epsilon) == Units(1 - p)
  {
    PowerEncoding(min);
    PowerEncoding(epsilon);
    AllOnesEncoding(max);
  }

  /** LDBL_DIG is the greatest q with 10^q <= 2^(p - 1). */
  lemma DigitsFit()
    ensures Pow10(LDBL_DIG) <= Pow2(LDBL_MANT_DIG - 1) < Pow10(LDBL_DIG + 1)
  {
    IntegerBitIsPower();
    assert Pow10(6) == 1000000;
    assert Pow10(12) == 1000000000000;
  }

  // ----- operators -----

  /** Unary minus. */
  function Neg(x: Soft): Soft { x.(sign := 1 - x.sign) }

  predicate Truth(x: Soft) { x.mantissa != 0 || x.exponent != 0 }

  lemma NegNegates(x: Soft)
    ensures Value(Neg(x)) == -Value(x) && Neg(Neg(x)) == x
    ensures WellFormed(Neg(x)) <==> WellFormed(x)
  {
  }

  /** The conversion to bool is right about a finite number exactly when the number is
      not a zero mantissa under a non-zero exponent; no well-formed number is. */
  lemma TruthIsNonZero(x: Soft)
    requires Finite(x)
    ensures (Truth(x) <==> Value(x) != 0) <==> !(x.mantissa == 0 && x.exponent != 0)
    ensures WellFormed(x) ==> (Truth(x) <==> Value(x) != 0)
  {
    var p := Pow2(if x.exponent == 0 then 0 else x.exponent - 1);
    if x.mantissa != 0 {
      TimesMonotone(1, x.mantissa, 1, p);
    }
  }

  /** Only the two encodings of zero convert to false, whatever else is there. */
  lemma FalseEncodings(x: Soft)
    ensures Truth(x) <==> x != Soft(0, 0, 0) && x != Soft(0, 0, 1)
  {
  }

  /** Unary minus flips the top bit of the encoding and nothing else, of zero as well. */
  lemma NegFlipsTopBit(x: Soft)
    ensures x.sign == 0 ==> Packed(Neg(x)) == Packed(x) + 0x8000_0000_0000_0000_0000
    ensures x.sign == 1 ==> Packed(Neg(x)) == Packed(x) - 0x8000_0000_0000_0000_0000
    ensures Neg(x).mantissa == x.mantissa && Neg(x).exponent == x.exponent
  {
  }

  /** Such a number: zero in value, true as a bool. */
  lemma UnnormalZeroIsTrue()
    ensures Truth(Make(0, 1)) && Value(Make(0, 1)) == 0
  {
  }
}
