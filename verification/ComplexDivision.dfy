/**
 The complex type, over exact reals: its division scales by the larger part of the
 divisor.
 */
module ComplexDivision {

  datatype Complex = Complex(re: real, im: real)

  function Abs(x: real): real { if x < 0.0 then -x else x }
  function Max(x: real, y: real): real { if x < y then y else x }

  const ZERO := Complex(0.0, 0.0)
  const I := Complex(0.0, 1.0)

  /** A real number as a complex one. */
  function OfReal(x: real): Complex { Complex(x, 0.0) }

  function Add(x: Complex, y: Complex): Complex { Complex(x.re + y.re, x.im + y.im) }
  function Sub(x: Complex, y: Complex): Complex { Complex(x.re - y.re, x.im - y.im) }
  function Neg(x: Complex): Complex { Complex(-x.re, -x.im) }

  function Mul(x: Complex, y: Complex): Complex
  {
    Complex(x.re * y.re - x.im * y.im, x.im * y.re + x.re * y.im)
  }

  /** Conversion to bool. */
  predicate Truth(x: Complex) { x.re != 0.0 || x.im != 0.0 }

  predicate Equal(x: Complex, y: Complex) { x.re == y.re && x.im == y.im }
  predicate Different(x: Complex, y: Complex) { x.re != y.re || x.im != y.im }

  // ----- the scaled division -----

  /** The branch taken. */
  predicate ImagLarger(y: Complex) { Abs(y.re) < Abs(y.im) }

  function Ratio(y: Complex): real
    requires Truth(y)
  {
    if ImagLarger(y) then y.re / y.im else y.im / y.re
  }

  function Denominator(y: Complex): real
    requires Truth(y)
  {
    if ImagLarger(y) then y.im + Ratio(y) * y.re else y.re + Ratio(y) * y.im
  }

  function ImagScaled(x: Complex, r: real, den: real): Complex
    requires den != 0.0
  {
    Complex((x.re * r + x.im) / den, (x.im * r - x.re) / den)
  }

  function RealScaled(x: Complex, r: real, den: real): Complex
    requires den != 0.0
  {
    Complex((x.re + r * x.im) / den, (x.im - r * x.re) / den)
  }

  function Div(x: Complex, y: Complex): Complex
    requires Truth(y)
  {
    ScaledDenominator(y);
    if ImagLarger(y) then ImagScaled(x, Ratio(y), Denominator(y))
    else RealScaled(x, Ratio(y), Denominator(y))
  }

  /** The part of y with the larger absolute value. */
  function Larger(y: Complex): real { if ImagLarger(y) then y.im else y.re }
  function Smaller(y: Complex): real { if ImagLarger(y) then y.re else y.im }

  function NormSquared(y: Complex): real { y.re * y.re + y.im * y.im }

  // ----- facts about products of reals -----

  lemma AbsAndMax(x: real, y: real)
    ensures 0.0 <= Abs(x) && (Abs(x) == x || Abs(x) == -x)
    ensures x <= Max(x, y) && y <= Max(x, y) && (Max(x, y) == x || Max(x, y) == y)
  {
  }

  lemma Cancel(a: real, b: real, c: real)
    requires a * c == b * c && c != 0.0
    ensures a == b
  {
    assert (a - b) * c == a * c - b * c;
  }

  lemma LessTimes(a: real, b: real, c: real)
    requires a < b && 0.0 < c
    ensures a * c < b * c
  {
    assert (b - a) * c == b * c - a * c;
  }

  lemma AbsTimes(a: real, b: real)
    ensures Abs(a * b) == Abs(a) * Abs(b) && a * a == Abs(a) * Abs(a)
  {
  }

  lemma SquareOfAbs(a: real, b: real)
    requires Abs(a) <= Abs(b)
    ensures 0.0 <= a * a <= b * b
  {
    var p, q := Abs(a), Abs(b);
    AbsTimes(a, a);
    AbsTimes(b, b);
    assert (q - p) * (q + p) == q * q - p * p;
  }

  /** den times the larger part is |y|^2, so den is not zero. */
  lemma ScaledDenominator(y: Complex)
    requires Truth(y)
    ensures Larger(y) != 0.0
    ensures Denominator(y) * Larger(y) == NormSquared(y) > 0.0 && Denominator(y) != 0.0
    ensures Ratio(y) * Larger(y) == Smaller(y)
  {
    var a, b, r := Larger(y), Smaller(y), Ratio(y);
    assert r * a == b;
    assert (a + r * b) * a == a * a + (r * a) * b;
    SquareOfAbs(b, a);
    SquareOfAbs(0.0, a);
    assert a * a != 0.0;
  }

  lemma RatioBound(r: real, a: real, b: real)
    requires r * a == b && Abs(b) <= Abs(a) && a != 0.0
    ensures Abs(r) <= 1.0
  {
    AbsTimes(r, a);
    if 1.0 < Abs(r) {
      LessTimes(1.0, Abs(r), Abs(a));
    }
  }

  lemma BetweenProducts(d: real, a: real, n: real)
    requires 0.0 < a && d * a == n && a * a <= n <= 2.0 * (a * a)
    ensures a <= d <= 2.0 * a
  {
    if d < a {
      LessTimes(d, a, a);
    }
    if 2.0 * a < d {
      LessTimes(2.0 * a, d, a);
    }
  }

  lemma SquaresBetween(a: real, b: real)
    requires Abs(b) <= Abs(a)
    ensures 0.0 <= Abs(a) * Abs(a) <= a * a + b * b <= 2.0 * (Abs(a) * Abs(a))
  {
    SquareOfAbs(b, a);
    AbsTimes(a, a);
  }

  lemma AbsOfProduct(den: real, a: real, n: real)
    requires den * a == n && 0.0 <= n
    ensures Abs(den) * Abs(a) == n
  {
    AbsTimes(den, a);
  }

  lemma DenominatorBound(den: real, a: real, b: real, n: real)
    requires den * a == n && n == a * a + b * b && Abs(b) <= Abs(a) && a != 0.0
    ensures Abs(a) <= Abs(den) <= 2.0 * Abs(a)
  {
    SquaresBetween(a, b);
    AbsOfProduct(den, a, n);
    BetweenProducts(Abs(den), Abs(a), n);
  }

  lemma NormOfParts(y: Complex)
    ensures NormSquared(y) == Larger(y) * Larger(y) + Smaller(y) * Smaller(y)
    ensures Abs(Smaller(y)) <= Abs(Larger(y)) == Max(Abs(y.re), Abs(y.im))
  {
  }

  lemma DenominatorBetween(y: Complex)
    requires Truth(y)
    ensures Abs(Larger(y)) <= Abs(Denominator(y)) <= 2.0 * Abs(Larger(y))
  {
    ScaledDenominator(y);
    NormOfParts(y);
    DenominatorBound(Denominator(y), Larger(y), Smaller(y), NormSquared(y));
  }

  lemma RatioAtMostOne(y: Complex)
    requires Truth(y)
    ensures Larger(y) != 0.0 && Abs(Ratio(y)) <= 1.0
  {
    ScaledDenominator(y);
    NormOfParts(y);
    RatioBound(Ratio(y), Larger(y), Smaller(y));
  }

  /** The scaling bound: whichever branch is taken, the ratio is at most 1, and the
      denominator lies between the larger part and twice the larger part of y. */
  lemma ScalingBound(y: Complex)
    requires Truth(y)
    ensures Abs(Ratio(y)) <= 1.0
    ensures var big := Max(Abs(y.re), Abs(y.im));
            0.0 < big <= Abs(Denominator(y)) <= 2.0 * big
  {
    RatioAtMostOne(y);
    DenominatorBetween(y);
    NormOfParts(y);
  }

  /** The textbook quotient: x times the conjugate of y over |y|^2. */
  function Quotient(x: Complex, y: Complex): Complex
    requires NormSquared(y) != 0.0
  {
    var p := Mul(x, Complex(y.re, -y.im));
    Complex(p.re / NormSquared(y), p.im / NormSquared(y))
  }

  /** The quotient, multiplied out. */
  function QuotientOf(x: Complex, c: real, d: real, n: real): Complex
    requires n != 0.0
  {
    Complex((x.re * c + x.im * d) / n, (x.im * c - x.re * d) / n)
  }

  lemma QuotientParts(x: Complex, y: Complex)
    requires NormSquared(y) != 0.0
    ensures Quotient(x, y) == QuotientOf(x, y.re, y.im, NormSquared(y))
  {
    assert x.im * (-y.im) == -(x.im * y.im) && x.re * (-y.im) == -(x.re * y.im);
  }

  lemma Expanded(u: real, v: real, den: real, a: real, n: real)
    requires u * a == v && den * a == n && den != 0.0 && n != 0.0
    ensures u / den == v / n
  {
    var f := u / den;
    assert f * den == u;
    assert f * (den * a) == (f * den) * a;
    Cancel(f, v / n, n);
  }

  /** In either branch the fractions are the textbook ones, reduced by the larger part. */
  lemma ImagBranch(x: Complex, c: real, d: real, r: real, den: real, n: real)
    requires r * d == c && den * d == n && den != 0.0 && n != 0.0
    ensures ImagScaled(x, r, den) == QuotientOf(x, c, d, n)
  {
    var p, q := x.re, x.im;
    assert (p * r + q) * d == p * (r * d) + q * d;
    Expanded(p * r + q, p * c + q * d, den, d, n);
    assert (q * r - p) * d == q * (r * d) - p * d;
    Expanded(q * r - p, q * c - p * d, den, d, n);
  }

  lemma RealBranch(x: Complex, c: real, d: real, r: real, den: real, n: real)
    requires r * c == d && den * c == n && den != 0.0 && n != 0.0
    ensures RealScaled(x, r, den) == QuotientOf(x, c, d, n)
  {
    var p, q := x.re, x.im;
    assert (p + r * q) * c == p * c + q * (r * c);
    Expanded(p + r * q, p * c + q * d, den, c, n);
    assert (q - r * p) * c == q * c - p * (r * c);
    Expanded(q - r * p, q * c - p * d, den, c, n);
  }

  lemma ImagScale(y: Complex)
    requires Truth(y) && ImagLarger(y)
    ensures Ratio(y) * y.im == y.re && Denominator(y) * y.im == NormSquared(y)
    ensures Denominator(y) != 0.0 && NormSquared(y) != 0.0
  {
    ScaledDenominator(y);
  }

  lemma RealScale(y: Complex)
    requires Truth(y) && !ImagLarger(y)
    ensures Ratio(y) * y.re == y.im && Denominator(y) * y.re == NormSquared(y)
    ensures Denominator(y) != 0.0 && NormSquared(y) != 0.0
  {
    ScaledDenominator(y);
  }

  lemma DivScalesByImag(x: Complex, y: Complex)
    requires Truth(y) && ImagLarger(y) && Denominator(y) != 0.0 && NormSquared(y) != 0.0
    requires Ratio(y) * y.im == y.re && Denominator(y) * y.im == NormSquared(y)
    ensures Div(x, y) == QuotientOf(x, y.re, y.im, NormSquared(y))
  {
    ImagBranch(x, y.re, y.im, Ratio(y), Denominator(y), NormSquared(y));
  }

  lemma DivScalesByReal(x: Complex, y: Complex)
    requires Truth(y) && !ImagLarger(y) && Denominator(y) != 0.0 && NormSquared(y) != 0.0
    requires Ratio(y) * y.re == y.im && Denominator(y) * y.re == NormSquared(y)
    ensures Div(x, y) == QuotientOf(x, y.re, y.im, NormSquared(y))
  {
    RealBranch(x, y.re, y.im, Ratio(y), Denominator(y), NormSquared(y));
  }

  /** Both branches compute the textbook quotient. */
  lemma DivIsQuotient(x: Complex, y: Complex)
    requires Truth(y)
    ensures NormSquared(y) != 0.0 && Div(x, y) == Quotient(x, y)
  {
    if ImagLarger(y) {
      ImagScale(y);
      DivScalesByImag(x, y);
    } else {
      RealScale(y);
      DivScalesByReal(x, y);
    }
    QuotientParts(x, y);
  }

  // ----- division and multiplication undo each other -----

  /** Multiplying by the conjugate and by the number multiplies by |y|^2. */
  lemma ConjugateTwice(p: real, q: real, c: real, d: real)
    ensures (p * c + q * d) * c - (q * c - p * d) * d == p * (c * c + d * d)
    ensures (q * c - p * d) * c + (p * c + q * d) * d == q * (c * c + d * d)
  {
    assert (p * c + q * d) * c == p * (c * c) + q * (c * d);
    assert (q * c - p * d) * d == q * (c * d) - p * (d * d);
    assert (q * c - p * d) * c == q * (c * c) - p * (c * d);
    assert (p * c + q * d) * d == p * (c * d) + q * (d * d);
  }

  lemma Scale(f: real, g: real, c: real, d: real, n: real)
    ensures (f * c - g * d) * n == (f * n) * c - (g * n) * d
    ensures (g * c + f * d) * n == (g * n) * c + (f * n) * d
  {
    assert (f * c) * n == (f * n) * c && (g * d) * n == (g * n) * d;
    assert (g * c) * n == (g * n) * c && (f * d) * n == (f * n) * d;
  }

  lemma DivThenMulParts(p: real, q: real, c: real, d: real, f: real, g: real, n: real)
    requires n == c * c + d * d && n != 0.0
    requires f == (p * c + q * d) / n && g == (q * c - p * d) / n
    ensures f * c - g * d == p && g * c + f * d == q
  {
    assert f * n == p * c + q * d && g * n == q * c - p * d;
    Scale(f, g, c, d, n);
    ConjugateTwice(p, q, c, d);
    Cancel(f * c - g * d, p, n);
    Cancel(g * c + f * d, q, n);
  }

  lemma QuotientThenMul(x: Complex, y: Complex)
    requires NormSquared(y) != 0.0
    ensures Mul(Quotient(x, y), y) == x
  {
    QuotientParts(x, y);
    DivThenMulParts(x.re, x.im, y.re, y.im, Quotient(x, y).re, Quotient(x, y).im, NormSquared(y));
  }

  /** Multiplication undoes division. */
  lemma DivThenMul(x: Complex, y: Complex)
    requires Truth(y)
    ensures Mul(Div(x, y), y) == x
  {
    DivIsQuotient(x, y);
    QuotientThenMul(x, y);
  }

  lemma UnMul(p: real, q: real, c: real, d: real, m: real, k: real, n: real)
    requires m == p * c - q * d && k == q * c + p * d && n == c * c + d * d
    ensures p * n == m * c + k * d && q * n == k * c - m * d
  {
    assert m * c == p * (c * c) - q * (c * d);
    assert k * d == q * (c * d) + p * (d * d);
    assert k * c == q * (c * c) + p * (c * d);
    assert m * d == p * (c * d) - q * (d * d);
  }

  lemma UnMulUnique(p: real, q: real, e: real, f: real, c: real, d: real, m: real, k: real, n: real)
    requires m == p * c - q * d && k == q * c + p * d && n == c * c + d * d && n != 0.0
    requires m == e * c - f * d && k == f * c + e * d
    ensures p == e && q == f
  {
    UnMul(p, q, c, d, m, k, n);
    UnMul(e, f, c, d, m, k, n);
    Cancel(p, e, n);
    Cancel(q, f, n);
  }

  /** A product with y comes from one factor only. */
  lemma MulInjective(x: Complex, z: Complex, y: Complex)
    requires NormSquared(y) != 0.0 && Mul(x, y) == Mul(z, y)
    ensures x == z
  {
    UnMulUnique(x.re, x.im, z.re, z.im, y.re, y.im, Mul(x, y).re, Mul(x, y).im, NormSquared(y));
  }

  /** Division undoes multiplication. */
  lemma MulThenDiv(x: Complex, y: Complex)
    requires Truth(y)
    ensures Div(Mul(x, y), y) == x
  {
    ScaledDenominator(y);
    DivThenMul(Mul(x, y), y);
    MulInjective(Div(Mul(x, y), y), x, y);
  }

  /** Dividing by a real number divides both parts. */
  lemma DivByReal(x: Complex, t: real)
    requires t != 0.0
    ensures Div(x, OfReal(t)) == Complex(x.re / t, x.im / t)
  {
    assert Mul(Complex(x.re / t, x.im / t), OfReal(t)) == x;
    MulThenDiv(Complex(x.re / t, x.im / t), OfReal(t));
  }

  /** There are no zero divisors: a product is true exactly when both factors are. */
  lemma ProductTruth(x: Complex, y: Complex)
    ensures Truth(Mul(x, y)) <==> Truth(x) && Truth(y)
  {
    if Truth(y) && !Truth(Mul(x, y)) {
      ScaledDenominator(y);
      MulInjective(x, ZERO, y);
    }
  }

  // ----- what products are -----

  lemma MulCommutes(x: Complex, y: Complex)
    ensures Mul(x, y) == Mul(y, x)
  {
  }

  lemma MulAssociates(x: Complex, y: Complex, z: Complex)
    ensures Mul(Mul(x, y), z) == Mul(x, Mul(y, z))
  {
    ProductOfThree(x.re, x.im, y.re, y.im, z.re, z.im);
    ProductOfThree(x.im, -x.re, y.re, y.im, z.re, z.im);
    assert Mul(Mul(x, y), z).im == (x.im * y.re + x.re * y.im) * z.re + (x.re * y.re - x.im * y.im) * z.im;
    assert Mul(x, Mul(y, z)).im == x.im * (y.re * z.re - y.im * z.im) + x.re * (y.im * z.re + y.re * z.im);
  }

  lemma ProductOfThree(a: real, b: real, c: real, d: real, e: real, f: real)
    ensures (a * c - b * d) * e - (b * c + a * d) * f == a * (c * e - d * f) - b * (d * e + c * f)
  {
    assert (a * c - b * d) * e == a * (c * e) - b * (d * e);
    assert (b * c + a * d) * f == b * (c * f) + a * (d * f);
  }

  /** A real factor scales both parts, I times I is -1, and a number times its conjugate is
      the square of its absolute value. With the distributive law, that determines the
      product. */
  lemma MulIsProduct(x: Complex, t: real)
    ensures Mul(x, OfReal(t)) == Complex(x.re * t, x.im * t)
    ensures Mul(I, I) == OfReal(-1.0)
    ensures Mul(x, Complex(x.re, -x.im)) == OfReal(x.re * x.re + x.im * x.im)
  {
  }

  /** A number divided by itself is 1. */
  lemma DivSelf(y: Complex)
    requires Truth(y)
    ensures Div(y, y) == OfReal(1.0)
  {
    assert Mul(OfReal(1.0), y) == y;
    MulThenDiv(OfReal(1.0), y);
  }

  // ----- sums and comparisons -----

  /** Sums form a group in which every number is its real part plus I times its imaginary one. */
  lemma AddIsSum(x: Complex, y: Complex, z: Complex)
    ensures Add(x, y) == Add(y, x) && Add(Add(x, y), z) == Add(x, Add(y, z))
    ensures Add(x, ZERO) == x && Add(x, Neg(x)) == ZERO
    ensures Add(OfReal(x.re), OfReal(y.re)) == OfReal(x.re + y.re)
    ensures x == Add(OfReal(x.re), Mul(I, OfReal(x.im)))
  {
  }

  /** Subtraction undoes addition, and adds the negated number. */
  lemma SubUndoesAdd(x: Complex, y: Complex)
    ensures Sub(Add(x, y), y) == x && Sub(x, y) == Add(x, Neg(y))
  {
  }

  /** == and != exclude each other, == is equality and holds exactly when the difference is
      false, and only zero is false. */
  lemma ComparisonsAgree(x: Complex, y: Complex)
    ensures Different(x, y) <==> !Equal(x, y)
    ensures Equal(x, y) <==> x == y
    ensures Truth(x) <==> x != ZERO
    ensures Equal(x, y) <==> !Truth(Sub(x, y))
  {
  }

  lemma MulDistributes(x: Complex, y: Complex, z: Complex)
    ensures Mul(Add(x, y), z) == Add(Mul(x, z), Mul(y, z))
  {
    assert (x.re + y.re) * z.re == x.re * z.re + y.re * z.re;
    assert (x.im + y.im) * z.im == x.im * z.im + y.im * z.im;
    assert (x.im + y.im) * z.re == x.im * z.re + y.im * z.re;
    assert (x.re + y.re) * z.im == x.re * z.im + y.re * z.im;
  }

  /** Division distributes over sums. */
  lemma DivDistributes(x: Complex, y: Complex, z: Complex)
    requires Truth(z)
    ensures Div(Add(x, y), z) == Add(Div(x, z), Div(y, z))
  {
    DivThenMul(x, z);
    DivThenMul(y, z);
    DivThenMul(Add(x, y), z);
    MulDistributes(Div(x, z), Div(y, z), z);
    ScaledDenominator(z);
    MulInjective(Div(Add(x, y), z), Add(Div(x, z), Div(y, z)), z);
  }
}
