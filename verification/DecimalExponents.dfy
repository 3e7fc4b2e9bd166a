/**
 The decimal exponents of the 80-bit encoding: which powers of ten lie between the least
 normal number and the greatest finite one. It rests on a bound for 10^4932, computed
 by repeated squaring in sixteen bits.
 */
module DecimalExponents {
  import opened Powers
  import opened SoftLongDouble

  // ----- 10^4932 against powers of two -----

  /** lo * 2^b <= 10^k <= hi * 2^b. */
  ghost predicate Between(k: nat, b: nat, lo: nat, hi: nat)
  {
    lo * Pow2(b) <= Pow10(k) <= hi * Pow2(b)
  }

  lemma ProductOrder(a: nat, b: nat, c: nat, d: nat)
    requires a <= b && c <= d
    ensures a * c <= b * d
  {
    assert a * c <= b * c <= b * d;
  }

  /** Squaring, with the last s bits rounded off. */
  lemma Squared(k: nat, b: nat, lo: nat, hi: nat, s: nat, low: nat, high: nat)
    requires Between(k, b, lo, hi)
    requires low * Pow2(s) <= lo * lo && hi * hi <= high * Pow2(s)
    ensures Between(k + k, b + b + s, low, high)
  {
    var p, q := Pow2(b), Pow2(s);
    Pow10Add(k, k);
    assert Pow2(b + b + s) == p * p * q by {
      Pow2Add(b, b);
      Pow2Add(b + b, s);
    }
    SquaredBelow(lo, p, Pow10(k), low, q);
    SquaredAbove(hi, p, Pow10(k), high, q);
  }

  lemma SquaredBelow(lo: nat, p: nat, x: nat, low: nat, q: nat)
    requires lo * p <= x && low * q <= lo * lo
    ensures low * (p * p * q) <= x * x
  {
    ProductOrder(lo * p, x, lo * p, x);
    ProductOrder(low * q, lo * lo, p * p, p * p);
    assert low * (p * p * q) == (low * q) * (p * p);
    assert (lo * p) * (lo * p) == (lo * lo) * (p * p);
  }

  lemma SquaredAbove(hi: nat, p: nat, x: nat, high: nat, q: nat)
    requires x <= hi * p && hi * hi <= high * q
    ensures x * x <= high * (p * p * q)
  {
    ProductOrder(x, hi * p, x, hi * p);
    ProductOrder(hi * hi, high * q, p * p, p * p);
    assert high * (p * p * q) == (high * q) * (p * p);
    assert (hi * p) * (hi * p) == (hi * hi) * (p * p);
  }

  lemma TimesTen(k: nat, b: nat, lo: nat, hi: nat)
    requires Between(k, b, lo, hi)
    ensures Between(k + 1, b, 10 * lo, 10 * hi)
  {
  }

  lemma Shifts()
    ensures Pow2(13) == 8192 && Pow2(14) == 16384 && Pow2(20) == 1048576 && Pow2(21) == 2097152
  {
    assert Pow2(7) == 128;
    Pow2Add(7, 7);
    Pow2Add(14, 7);
  }

  lemma Start()
    ensures Between(4, 0, 10000, 10000)
  {
    assert Pow2(0) == 1 && Pow10(2) == 100;
  }

  lemma Bound77()
    ensures Between(77, 239, 113150, 113300)
  {
    Shifts();
    Start();
    Squared(4, 0, 10000, 10000, 13, 12207, 12208);
    TimesTen(8, 13, 12207, 12208);
    Squared(9, 13, 122070, 122080, 20, 14210, 14214);
    TimesTen(18, 46, 14210, 14214);
    Squared(19, 46, 142100, 142140, 21, 9628, 9634);
    Squared(38, 113, 9628, 9634, 13, 11315, 11330);
    TimesTen(76, 239, 11315, 11330);
  }

  lemma Bound616()
    ensures Between(616, 2033, 10101, 10218)
  {
    Shifts();
    Bound77();
    Squared(77, 239, 113150, 113300, 20, 12209, 12243);
    Squared(154, 498, 12209, 12243, 14, 9097, 9149);
    Squared(308, 1010, 9097, 9149, 13, 10101, 10218);
  }

  /** By squaring along the binary digits of 4932. */
  lemma Bound4932()
    ensures Between(4932, 16370, 13352, 14653)
  {
    Shifts();
    Bound616();
    Squared(616, 2033, 10101, 10218, 13, 12454, 12746);
    TimesTen(1232, 4079, 12454, 12746);
    Squared(1233, 4079, 124540, 127460, 20, 14791, 15494);
    Squared(2466, 8178, 14791, 15494, 14, 13352, 14653);
  }

  // ----- the characteristics -----

  /** 2^16383 <= 10^4932, and 10^4932 is less than 2^16384 by more than a twelfth. */
  lemma SandwichOf4932(k: nat, b: nat)
    requires k == 4932 && b == 16370
    ensures 8192 * Pow2(b) <= Pow10(k) && 12 * Pow10(k) <= 11 * (16384 * Pow2(b))
  {
    Bound4932();
  }

  /** Powers of ten against x, from one power on either side. */
  lemma GreatestPower(top: nat, x: nat, k: nat)
    requires Pow10(top) <= x < 10 * Pow10(top)
    ensures Pow10(k) <= x <==> k <= top
  {
    if k <= top {
      Pow10Grows(k, top);
    } else {
      Pow10Grows(top + 1, k);
    }
  }

  lemma ScaledOrder(a: int, b: int, s: nat)
    requires 0 < s
    ensures a * s <= b * s <==> a <= b
  {
    assert b * s - a * s == (b - a) * s;
  }

  /** LDBL_MAX as a multiple of 1, with the exponent d of its last place. */
  lemma MaxInOnes(max: Soft, one: Soft, d: nat)
    requires IsMax(max) && IsOne(one) && d == max.exponent - one.exponent - 63
    ensures Value(max) == (max.mantissa * Pow2(d)) * Value(one) && 0 < Value(one)
  {
    IntegerBitIsPower();
    Pow2Add(63, one.exponent - 1);
    Pow2Add(d, 63 + (one.exponent - 1));
    assert max.mantissa * (Pow2(d) * Value(one)) == (max.mantissa * Pow2(d)) * Value(one);
  }

  lemma OneInMins(one: Soft, min: Soft)
    requires IsOne(one) && IsMin(min)
    ensures Value(one) == Pow2(one.exponent - 1) * Value(min) && 0 < Value(min)
  {
    assert Pow2(0) == 1;
  }

  lemma Times64(d: nat)
    ensures Pow2(d + 64) == 0x1_0000_0000_0000_0000 * Pow2(d)
  {
    Pow2At64();
    Pow2Add(64, d);
  }

  lemma Times14(b: nat)
    ensures Pow2(b + 14) == 16384 * Pow2(b) && Pow2(b + 12) == 4096 * Pow2(b)
  {
    Shifts();
    Pow2Add(14, b);
    assert Pow2(b + 14) == 2 * Pow2(b + 13);
  }

  lemma MaxBetween(top: nat, d: nat, x: nat)
    requires top == 4932 && d == 16320 && x == 0xffff_ffff_ffff_ffff * Pow2(d)
    ensures Pow10(top) <= x < 10 * Pow10(top)
  {
    var b: nat := 16370;
    SandwichOf4932(top, b);
    Times64(d);
    Times14(b);
  }

  lemma OneBetween(top: nat, m: nat)
    requires top == 4931 && m == 16382
    ensures Pow10(top) <= Pow2(m) < 10 * Pow10(top)
  {
    var b: nat := 16370;
    SandwichOf4932(top + 1, b);
    Times14(b);
  }

  /** 10^k is at most LDBL_MAX exactly up to k = LDBL_MAX_10_EXP, as section 5.2.4.2.2 of
      C11 wants it. */
  lemma MaxDecimalExponent(max: Soft, one: Soft, k: nat)
    requires IsMax(max) && IsOne(one)
    ensures Pow10(k) * Value(one) <= Value(max) <==> k <= LDBL_MAX_10_EXP
  {
    var d, top: nat := 16320, 4932;
    var x := max.mantissa * Pow2(d);
    MaxBetween(top, d, x);
    GreatestPower(top, x, k);
    MaxInOnes(max, one, d);
    ScaledOrder(Pow10(k), x, Value(one));
  }

  /** 10^-k is at least LDBL_MIN exactly up to k = 4931, which is one less than
      -LDBL_MIN_10_EXP: 10^LDBL_MIN_10_EXP is below the normal range. */
  lemma MinDecimalExponent(min: Soft, one: Soft, k: nat)
    requires IsMin(min) && IsOne(one)
    ensures Pow10(k) * Value(min) <= Value(one) <==> k < -LDBL_MIN_10_EXP
  {
    var m, top: nat := 16382, 4931;
    OneBetween(top, m);
    GreatestPower(top, Pow2(m), k);
    OneInMins(one, min);
    ScaledOrder(Pow10(k), Pow2(m), Value(min));
  }

  /** Both for the header's own constants. */
  lemma HeaderDecimalExponents(k: nat)
    ensures Pow10(k) * Value(ONE) <= Value(LDBL_MAX) <==> k <= LDBL_MAX_10_EXP
    ensures Pow10(k) * Value(LDBL_MIN) <= Value(ONE) <==> k < -LDBL_MIN_10_EXP
  {
    TheLimits();
    MaxDecimalExponent(LDBL_MAX, ONE, k);
    MinDecimalExponent(LDBL_MIN, ONE, k);
  }
}
