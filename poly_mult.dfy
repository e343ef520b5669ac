/**
  multiply_polys: the product of two polynomials given by their coefficient
  vectors (lowest degree first), computed through the engine. The size is
  rounded up to a power of two, both inputs are zero-extended and lifted to
  complex values, transformed forward, multiplied back by n, multiplied
  pointwise and transformed back; the output coefficients are the real parts
  divided by n. The self-test of main multiplies 9 + 3x + 7x^2 by 5 - 13x.
 */
module PolyMult {
  import opened PowerOfTwo
  import opened ComplexNumbers
  import opened Butterflies
  import opened Engine

  /** The smallest k >= start with 2^k >= total. */
  function SizeExponentFrom(start: nat, total: int): (k: nat)
    requires start >= 1
    ensures k >= start
    decreases total - Pow2(start)
  {
    if Pow2(start) >= total then start else SizeExponentFrom(start + 1, total)
  }

  /** The stage count of the product transform. */
  function SizeExponent(total: int): (k: nat)
    ensures k >= 1
  {
    SizeExponentFrom(1, total)
  }

  /** The transform size multiply_polys picks for inputs of total length
      `total`. */
  function ProductSize(total: int): nat
  {
    Pow2(SizeExponent(total))
  }

  lemma {:induction false} SizeExponentFromSmallest(start: nat, total: int)
    requires start >= 1 && (start == 1 || Pow2(start - 1) < total)
    ensures var k := SizeExponentFrom(start, total);
      Pow2(k) >= total && (k == 1 || Pow2(k - 1) < total)
    decreases total - Pow2(start)
  {
    if Pow2(start) < total {
      SizeExponentFromSmallest(start + 1, total);
    }
  }

  /** The size is the smallest power of two that is at least 2 and at least
      the total length of the inputs. */
  lemma ProductSizeSmallest(total: int)
    ensures ProductSize(total) >= 2 && ProductSize(total) >= total
    ensures forall k: nat :: Pow2(k) >= 2 && Pow2(k) >= total ==> ProductSize(total) <= Pow2(k)
  {
    var e := SizeExponent(total);
    SizeExponentFromSmallest(1, total);
    Pow2Monotone(1, e);
    forall k: nat | Pow2(k) >= 2 && Pow2(k) >= total
      ensures Pow2(e) <= Pow2(k)
    {
      if k < e {
        Pow2Monotone(k, e - 1);
      } else {
        Pow2Monotone(e, k);
      }
    }
  }

  /** The doubling loop: power_of_2 starts at 2 and doubles while it is below
      the total length. */
  method TransformSize(total: int) returns (n: nat)
    ensures n == ProductSize(total)
  {
    var powerOf2: nat := 2;
    ghost var k: nat := 1;
    while powerOf2 < total
      invariant k >= 1 && powerOf2 == Pow2(k)
      invariant SizeExponentFrom(k, total) == SizeExponent(total)
      decreases total - powerOf2
    {
      powerOf2 := powerOf2 * 2;   // power_of_2 <<= 1
      k := k + 1;
    }
    n := powerOf2;
  }

  /** std::vector::resize(n, 0): the first n coefficients are kept and the
      vector is extended with zeros up to n. */
  function Resized(poly: seq<real>, n: nat): (r: seq<real>)
    ensures |r| == n
    ensures forall i :: 0 <= i < n ==> r[i] == if i < |poly| then poly[i] else 0.0
  {
    if n <= |poly| then poly[..n] else poly + seq(n - |poly|, _ => 0.0)
  }

  /** Each coefficient as a complex value with imaginary part 0. */
  function Lift(x: seq<real>): (r: seq<Complex>)
    ensures |r| == |x|
  {
    seq(|x|, i requires 0 <= i < |x| => FromReal(x[i]))
  }

  /** Every value multiplied by the real scalar x. */
  function Rescaled(y: seq<Complex>, x: real): (r: seq<Complex>)
    ensures |r| == |y|
  {
    seq(|y|, i requires 0 <= i < |y| => Scale(y[i], x))
  }

  /** The pointwise product of two value vectors of the same length. */
  function Pointwise(x: seq<Complex>, y: seq<Complex>): (r: seq<Complex>)
    requires |x| == |y|
    ensures |r| == |x|
  {
    seq(|x|, i requires 0 <= i < |x| => Mul(x[i], y[i]))
  }

  /** The real parts divided by d. */
  function Coefficients(z: seq<Complex>, d: real): (r: seq<real>)
    requires d != 0.0
    ensures |r| == |z|
  {
    seq(|z|, i requires 0 <= i < |z| => z[i].re / d)
  }

  /** The point values of one padded input: its forward transform multiplied
      back by n. */
  function PointValues(poly: seq<real>, lg: nat, cis: real -> Complex): (r: seq<Complex>)
    ensures |r| == Pow2(lg)
  {
    var n := Pow2(lg);
    Rescaled(Transformed(Lift(Resized(poly, n)), lg, TwiddleTable(lg, false, cis), false), n as real)
  }

  /** What multiply_polys returns. */
  function PolynomialProduct(polyA: seq<real>, polyB: seq<real>, cis: real -> Complex): (c: seq<real>)
    ensures |c| == ProductSize(|polyA| + |polyB|)
  {
    var lg := SizeExponent(|polyA| + |polyB|);
    var n := Pow2(lg);
    var values := Pointwise(PointValues(polyA, lg, cis), PointValues(polyB, lg, cis));
    Coefficients(Transformed(values, lg, TwiddleTable(lg, true, cis), true), n as real)
  }

  /** Multiplying the forward transform by n gives back the unscaled network:
      the rescale exactly cancels the forward division. */
  lemma RescaleUndoesNormalization(x: seq<Complex>, lgN: nat, omega: seq<Complex>)
    requires Sized(|x|, lgN) && |omega| == lgN && |x| >= 1
    ensures Rescaled(Transformed(x, lgN, omega, false), |x| as real) == Transformed(x, lgN, omega, true)
  {
    var y := Transformed(x, lgN, omega, true);
    forall i | 0 <= i < |x|
      ensures Rescaled(Transformed(x, lgN, omega, false), |x| as real)[i] == y[i]
    {
      ScaleDivReal(y[i], |x| as real);
    }
  }

  /** The point values of the zero polynomial are all zero. */
  lemma PointValuesOfZero(poly: seq<real>, lg: nat, cis: real -> Complex)
    requires forall i :: 0 <= i < |poly| ==> poly[i] == 0.0
    ensures PointValues(poly, lg, cis) == Constant(Pow2(lg), Zero)
  {
    var n := Pow2(lg);
    assert Lift(Resized(poly, n)) == Constant(n, Zero);
    TransformOfZero(n, lg, TwiddleTable(lg, false, cis), false);
  }

  /** Multiplying by the zero polynomial gives the zero polynomial, whatever
      the twiddles are. */
  lemma ZeroFactorGivesZeroProduct(polyA: seq<real>, polyB: seq<real>, cis: real -> Complex)
    requires forall i :: 0 <= i < |polyA| ==> polyA[i] == 0.0
    ensures forall i :: 0 <= i < |PolynomialProduct(polyA, polyB, cis)| ==>
      PolynomialProduct(polyA, polyB, cis)[i] == 0.0
  {
    var lg := SizeExponent(|polyA| + |polyB|);
    var n := Pow2(lg);
    PointValuesOfZero(polyA, lg, cis);
    var values := Pointwise(PointValues(polyA, lg, cis), PointValues(polyB, lg, cis));
    forall i | 0 <= i < n
      ensures values[i] == Zero
    {
      MulZero(PointValues(polyB, lg, cis)[i]);
    }
    assert values == Constant(n, Zero);
    TransformOfZero(n, lg, TwiddleTable(lg, true, cis), true);
  }

  /** The product does not depend on the order of the factors. */
  lemma ProductCommutes(polyA: seq<real>, polyB: seq<real>, cis: real -> Complex)
    ensures PolynomialProduct(polyA, polyB, cis) == PolynomialProduct(polyB, polyA, cis)
  {
    var lg := SizeExponent(|polyA| + |polyB|);
    assert |polyB| + |polyA| == |polyA| + |polyB|;
    var va, vb := PointValues(polyA, lg, cis), PointValues(polyB, lg, cis);
    assert Pointwise(va, vb) == Pointwise(vb, va);
  }

  /** The exact product the self-test expects: coefficient k of a*b is the sum
      of a[i] * b[k - i]. */
  function ConvolveAt(a: seq<real>, b: seq<real>, k: int, i: nat): real
    requires i <= |a|
  {
    if i == 0 then 0.0
    else ConvolveAt(a, b, k, i - 1) + a[i - 1] * (if 0 <= k - (i - 1) < |b| then b[k - (i - 1)] else 0.0)
  }

  function Convolve(a: seq<real>, b: seq<real>): (c: seq<real>)
    ensures |c| == if |a| + |b| == 0 then 0 else |a| + |b| - 1
  {
    if |a| + |b| == 0 then [] else seq(|a| + |b| - 1, k => ConvolveAt(a, b, k, |a|))
  }

  /** The tolerance of the self-test. */
  const Epsilon: real := 0.000001

  /** The check main applies to the first four output coefficients. */
  predicate SelfTestPasses(result: seq<real>)
    requires |result| >= 4
  {
    Abs(result[0] - 45.0) < Epsilon && Abs(result[1] + 102.0) < Epsilon
    && Abs(result[2] + 4.0) < Epsilon && Abs(result[3] + 91.0) < Epsilon
  }

  /** The self-test's inputs give a transform of size 8, and the values it
      expects are exactly the coefficients of (9 + 3x + 7x^2)(5 - 13x). */
  lemma SelfTestExpectsProduct()
    ensures ProductSize(3 + 2) == 8
    ensures Convolve([9.0, 3.0, 7.0], [5.0, -13.0]) == [45.0, -102.0, -4.0, -91.0]
    ensures SelfTestPasses(Convolve([9.0, 3.0, 7.0], [5.0, -13.0]))
  {
    assert Pow2(1) == 2 && Pow2(2) == 4 && Pow2(3) == 8;
    var c := Convolve([9.0, 3.0, 7.0], [5.0, -13.0]);
    assert c[0] == 45.0 && c[1] == -102.0 && c[2] == -4.0 && c[3] == -91.0;
  }

  /** The lift loop: poly_a_complex[i] = poly_a[i] and likewise for b, one
      index at a time. */
  method LiftBoth(a: seq<real>, b: seq<real>) returns (aComplex: seq<Complex>, bComplex: seq<Complex>)
    requires |a| == |b|
    ensures aComplex == Lift(a) && bComplex == Lift(b)
  {
    var ac := new Complex[|a|](_ => Zero);
    var bc := new Complex[|b|](_ => Zero);
    var i := 0;
    while i < |a|
      invariant 0 <= i <= |a|
      invariant forall j :: 0 <= j < i ==> ac[j] == FromReal(a[j]) && bc[j] == FromReal(b[j])
    {
      ac[i] := FromReal(a[i]);
      bc[i] := FromReal(b[i]);
      i := i + 1;
    }
    aComplex, bComplex := ac[..], bc[..];
  }

  /** The rescale loop: poly_a_values[i] *= n and poly_b_values[i] *= n. */
  method RescaleBoth(aValues: seq<Complex>, bValues: seq<Complex>, n: nat)
    returns (aScaled: seq<Complex>, bScaled: seq<Complex>)
    requires |aValues| == n && |bValues| == n
    ensures aScaled == Rescaled(aValues, n as real) && bScaled == Rescaled(bValues, n as real)
  {
    aScaled, bScaled := aValues, bValues;
    var i := 0;
    while i < n
      invariant 0 <= i <= n && |aScaled| == n && |bScaled| == n
      invariant forall j :: 0 <= j < i ==> aScaled[j] == Scale(aValues[j], n as real)
      invariant forall j :: i <= j < n ==> aScaled[j] == aValues[j]
      invariant forall j :: 0 <= j < i ==> bScaled[j] == Scale(bValues[j], n as real)
      invariant forall j :: i <= j < n ==> bScaled[j] == bValues[j]
    {
      aScaled := aScaled[i := Scale(aScaled[i], n as real)];
      bScaled := bScaled[i := Scale(bScaled[i], n as real)];
      i := i + 1;
    }
  }

  /** The product loop: poly_c_values[i] = poly_a_values[i] * poly_b_values[i]. */
  method PointwiseProduct(aValues: seq<Complex>, bValues: seq<Complex>) returns (cValues: seq<Complex>)
    requires |aValues| == |bValues|
    ensures cValues == Pointwise(aValues, bValues)
  {
    var c := new Complex[|aValues|](_ => Zero);
    var i := 0;
    while i < |aValues|
      invariant 0 <= i <= |aValues|
      invariant forall j :: 0 <= j < i ==> c[j] == Mul(aValues[j], bValues[j])
    {
      c[i] := Mul(aValues[i], bValues[i]);
      i := i + 1;
    }
    cValues := c[..];
  }

  /** The output loop: poly_c[i] = poly_c_complex[i].real() / n. */
  method RealPartsOver(z: seq<Complex>, n: nat) returns (coefficients: seq<real>)
    requires n >= 1 && |z| == n
    ensures coefficients == Coefficients(z, n as real)
  {
    var c := new real[n](_ => 0.0);
    var i := 0;
    while i < n
      invariant 0 <= i <= n
      invariant forall j :: 0 <= j < i ==> c[j] == z[j].re / n as real
    {
      c[i] := z[i].re / n as real;
      i := i + 1;
    }
    coefficients := c[..];
  }

  /** multiply_polys(poly_a, poly_b). The inputs are values, so the resizes and
      the in-place rescales act on local copies only. The same forward engine
      transforms both inputs; each call returns a copy of its buffer. */
  method MultiplyPolys(polyA: seq<real>, polyB: seq<real>, cis: real -> Complex) returns (polyC: seq<real>)
    ensures polyC == PolynomialProduct(polyA, polyB, cis)
  {
    var n := TransformSize(|polyA| + |polyB|);
    ghost var lg := SizeExponent(|polyA| + |polyB|);
    var a := Resized(polyA, n);
    var b := Resized(polyB, n);
    var aComplex, bComplex := LiftBoth(a, b);
    assert IsPow2(n) by {
      assert Pow2(lg) == n;
    }
    var dft := new FFT(n, false, cis);
    assert dft.lgN == lg by {
      Pow2Injective(dft.lgN, lg);
    }
    ghost var forward := TwiddleTable(lg, false, cis);
    assert aComplex[..n] == Lift(Resized(polyA, n)) && bComplex[..n] == Lift(Resized(polyB, n));
    var aValues := dft.Transform(aComplex);
    var bValues := dft.Transform(bComplex);
    assert aValues == Transformed(Lift(Resized(polyA, n)), lg, forward, false);
    assert bValues == Transformed(Lift(Resized(polyB, n)), lg, forward, false);
    aValues, bValues := RescaleBoth(aValues, bValues, n);
    assert aValues == PointValues(polyA, lg, cis);
    assert bValues == PointValues(polyB, lg, cis);
    var cValues := PointwiseProduct(aValues, bValues);
    var idft := new FFT(n, true, cis);
    assert idft.lgN == lg by {
      Pow2Injective(idft.lgN, lg);
    }
    assert cValues[..n] == cValues;
    var cComplex := idft.Transform(cValues);
    assert cComplex == Transformed(cValues, lg, TwiddleTable(lg, true, cis), true);
    polyC := RealPartsOver(cComplex, n);
  }

  /** main's self-test: multiply 9 + 3x + 7x^2 by 5 - 13x and check the first
      four coefficients against 45, -102, -4 and -91 within EPSILON. */
  method SelfTest(cis: real -> Complex) returns (success: bool)
    ensures |PolynomialProduct([9.0, 3.0, 7.0], [5.0, -13.0], cis)| == 8
    ensures success == SelfTestPasses(PolynomialProduct([9.0, 3.0, 7.0], [5.0, -13.0], cis))
  {
    SelfTestExpectsProduct();
    var result := MultiplyPolys([9.0, 3.0, 7.0], [5.0, -13.0], cis);
    success := Abs(result[0] - 45.0) < Epsilon && Abs(result[1] + 102.0) < Epsilon
      && Abs(result[2] + 4.0) < Epsilon && Abs(result[3] + 91.0) < Epsilon;
  }
}
