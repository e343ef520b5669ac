/**
  What multiply_polys computes when the twiddle tables are exact: the
  coefficients of the product polynomial, zero-extended to the transform
  size. The point values of a and b at the powers of the forward root are
  A(u) and B(u); their products are the values of the product polynomial
  a*b, whose degree is below n; and the inverse transform of those values
  gives back n times its coefficients.
 */
module Convolution {
  import opened PowerOfTwo
  import opened ComplexNumbers
  import opened Butterflies
  import opened Engine
  import opened PolyMult
  import opened Dft
  import opened Inversion

  // ---------------------------------------------------------------------
  // Horner evaluation of coefficient functions

  lemma {:induction false} EvalPointwise(c: int -> Complex, d: int -> Complex, o: nat, len: nat, u: Complex)
    requires forall k: int :: o <= k < o + len ==> c(k) == d(k)
    ensures Eval(c, o, 1, len, u) == Eval(d, o, 1, len, u)
    decreases len
  {
    if len > 0 {
      EvalPointwise(c, d, o + 1, len - 1, u);
    }
  }

  lemma {:induction false} EvalOfZeros(c: int -> Complex, o: nat, len: nat, u: Complex)
    requires forall k: int :: o <= k < o + len ==> c(k) == Zero
    ensures Eval(c, o, 1, len, u) == Zero
    decreases len
  {
    if len > 0 {
      EvalOfZeros(c, o + 1, len - 1, u);
      MulZero(u);
    }
  }

  /** Evaluation is additive in the coefficients. */
  lemma {:induction false} EvalOfSums(c: int -> Complex, c1: int -> Complex, c2: int -> Complex, o: nat, len: nat, u: Complex)
    requires forall k: int :: o <= k < o + len ==> c(k) == Add(c1(k), c2(k))
    ensures Eval(c, o, 1, len, u) == Add(Eval(c1, o, 1, len, u), Eval(c2, o, 1, len, u))
    decreases len
  {
    if len > 0 {
      EvalOfSums(c, c1, c2, o + 1, len - 1, u);
      MulDistributesAdd(u, Eval(c1, o + 1, 1, len - 1, u), Eval(c2, o + 1, 1, len - 1, u));
    }
  }

  /** Evaluation is homogeneous in the coefficients. */
  lemma {:induction false} EvalOfScaled(c: int -> Complex, cs: int -> Complex, x: Complex, o: nat, len: nat, u: Complex)
    requires forall k: int :: o <= k < o + len ==> cs(k) == Mul(x, c(k))
    ensures Eval(cs, o, 1, len, u) == Mul(x, Eval(c, o, 1, len, u))
    decreases len
  {
    if len == 0 {
      MulZero(x);
    } else {
      var e := Eval(c, o + 1, 1, len - 1, u);
      EvalOfScaled(c, cs, x, o + 1, len - 1, u);
      MulCommutesScalar(u, x, e);
      MulDistributesAdd(x, c(o), Mul(u, e));
    }
  }

  /** Moving the coefficients m places up and starting m places later gives
      the same polynomial. */
  lemma {:induction false} EvalShifted(c: int -> Complex, d: int -> Complex, o: nat, m: nat, len: nat, u: Complex)
    requires forall k: int :: o <= k < o + len ==> d(k + m) == c(k)
    ensures Eval(d, o + m, 1, len, u) == Eval(c, o, 1, len, u)
    decreases len
  {
    if len > 0 {
      EvalShifted(c, d, o + 1, m, len - 1, u);
      assert d(o + m) == c(o);
    }
  }

  /** m leading zero coefficients multiply the rest by u^m. */
  lemma {:induction false} EvalLeadingZeros(c: int -> Complex, o: nat, m: nat, len: nat, u: Complex)
    requires forall k: int :: o <= k < o + m ==> c(k) == Zero
    ensures Eval(c, o, 1, m + len, u) == Mul(Pow(u, m), Eval(c, o + m, 1, len, u))
    decreases m
  {
    var e := Eval(c, o + m, 1, len, u);
    if m == 0 {
      assert Pow(u, 0) == One;
      MulOne(e);
    } else {
      EvalLeadingZeros(c, o + 1, m - 1, len, u);
      assert Eval(c, o, 1, m + len, u) == Add(c(o), Mul(u, Eval(c, o + 1, 1, (m - 1) + len, u)));
      MulAssociative(u, Pow(u, m - 1), e);
      assert Mul(u, Pow(u, m - 1)) == Pow(u, m);
    }
  }

  /** Trailing zero coefficients do not change the value. */
  lemma {:induction false} EvalTrailingZeros(c: int -> Complex, len: nat, extra: nat, u: Complex)
    requires forall k: int :: len <= k < len + extra ==> c(k) == Zero
    ensures Eval(c, 0, 1, len + extra, u) == Eval(c, 0, 1, len, u)
    decreases extra
  {
    if extra > 0 {
      EvalTrailingZeros(c, len, extra - 1, u);
      EvalAppend(c, 0, len + extra - 1, u);
      MulZero(Pow(u, len + extra - 1));
    }
  }

  // ---------------------------------------------------------------------
  // The product polynomial

  /** The coefficients of a[..i] * b: coefficient k is the sum of a[l] *
      b[k - l] over l < i. */
  function PartialProduct(a: seq<real>, b: seq<real>, i: nat): int -> Complex
    requires i <= |a|
  {
    k => FromReal(ConvolveAt(a, b, k, i))
  }

  /** The coefficients of a[i] * x^i * b. */
  function ShiftedTerm(a: seq<real>, b: seq<real>, i: nat): int -> Complex
    requires i < |a|
  {
    k => Mul(FromReal(a[i]), At(Lift(b), k - i))
  }

  /** The coefficients of x * b. */
  function ScaledFactor(x: Complex, b: seq<real>): int -> Complex
  {
    k => Mul(x, At(Lift(b), k))
  }

  /** a[..i] * b has no coefficient below degree 0 or above degree
      i + |b| - 2. */
  lemma {:induction false} ConvolveVanishes(a: seq<real>, b: seq<real>, k: int, i: nat)
    requires i <= |a| && (k < 0 || k >= i + |b| - 1)
    ensures ConvolveAt(a, b, k, i) == 0.0
  {
    if i > 0 {
      ConvolveVanishes(a, b, k, i - 1);
    }
  }

  lemma FromRealMulAdd(x: real, y: real, z: real)
    ensures FromReal(x + y * z) == Add(FromReal(x), Mul(FromReal(y), FromReal(z)))
  {
  }

  /** a[..i+1] * b == a[..i] * b + a[i] * x^i * b, coefficient by coefficient. */
  lemma ConvolveStep(a: seq<real>, b: seq<real>, i: nat, k: int)
    requires i < |a|
    ensures PartialProduct(a, b, i + 1)(k) == Add(PartialProduct(a, b, i)(k), ShiftedTerm(a, b, i)(k))
  {
    var x := ConvolveAt(a, b, k, i);
    assert ConvolveAt(a, b, k, i + 1) == x + a[i] * (if 0 <= k - i < |b| then b[k - i] else 0.0);
    if 0 <= k - i < |b| {
      assert At(Lift(b), k - i) == FromReal(b[k - i]);
      FromRealMulAdd(x, a[i], b[k - i]);
    } else {
      assert At(Lift(b), k - i) == Zero;
      MulZero(FromReal(a[i]));
    }
  }

  /** The value of a[i] * x^i * b at u is a[i] * u^i * B(u). */
  lemma ShiftedTermValue(a: seq<real>, b: seq<real>, i: nat, u: Complex)
    requires i < |a|
    ensures Eval(ShiftedTerm(a, b, i), 0, 1, i + 1 + |b|, u)
         == Mul(FromReal(a[i]), Mul(Pow(u, i), Eval(Padded(Lift(b)), 0, 1, |b|, u)))
  {
    var x := FromReal(a[i]);
    var t := ShiftedTerm(a, b, i);
    var bb := Eval(Padded(Lift(b)), 0, 1, |b|, u);
    forall k: int | 0 <= k < i
      ensures t(k) == Zero
    {
      MulZero(x);
    }
    EvalLeadingZeros(t, 0, i, 1 + |b|, u);
    EvalShifted(ScaledFactor(x, b), t, 0, i, 1 + |b|, u);
    EvalOfScaled(Padded(Lift(b)), ScaledFactor(x, b), x, 0, 1 + |b|, u);
    EvalTrailingZeros(Padded(Lift(b)), |b|, 1, u);
    assert Eval(Padded(Lift(b)), 0, 1, 1 + |b|, u) == bb;
    MulCommutesScalar(Pow(u, i), x, bb);
  }

  /** (A + x*u^j) * B == A*B + x*(u^j*B). */
  lemma ProductSplit(aj: Complex, x: Complex, uj: Complex, bb: Complex)
    ensures Mul(Add(aj, Mul(x, uj)), bb) == Add(Mul(aj, bb), Mul(x, Mul(uj, bb)))
  {
    var top := Mul(x, uj);
    MulDistributesAdd(bb, aj, top);
    assert Mul(Add(aj, top), bb) == Mul(bb, Add(aj, top));
    assert Mul(bb, aj) == Mul(aj, bb) && Mul(bb, top) == Mul(top, bb);
    MulAssociative(x, uj, bb);
  }

  /** The value of a[..j+1] * b is the value of a[..j] * b plus that of
      a[j] * x^j * b. */
  lemma PartialProductSplit(a: seq<real>, b: seq<real>, j: nat, u: Complex)
    requires j < |a|
    ensures Eval(PartialProduct(a, b, j + 1), 0, 1, j + 1 + |b|, u)
         == Add(Eval(PartialProduct(a, b, j), 0, 1, j + |b|, u), Eval(ShiftedTerm(a, b, j), 0, 1, j + 1 + |b|, u))
  {
    forall k: int | 0 <= k < j + 1 + |b|
      ensures PartialProduct(a, b, j + 1)(k) == Add(PartialProduct(a, b, j)(k), ShiftedTerm(a, b, j)(k))
    {
      ConvolveStep(a, b, j, k);
    }
    EvalOfSums(PartialProduct(a, b, j + 1), PartialProduct(a, b, j), ShiftedTerm(a, b, j), 0, j + 1 + |b|, u);
    ConvolveVanishes(a, b, j + |b|, j);
    EvalTrailingZeros(PartialProduct(a, b, j), j + |b|, 1, u);
  }

  /** One induction step of ProductOfEvals. */
  lemma ProductStep(a: seq<real>, b: seq<real>, j: nat, u: Complex)
    requires j < |a|
    requires Mul(Eval(Padded(Lift(a)), 0, 1, j, u), Eval(Padded(Lift(b)), 0, 1, |b|, u))
          == Eval(PartialProduct(a, b, j), 0, 1, j + |b|, u)
    ensures Mul(Eval(Padded(Lift(a)), 0, 1, j + 1, u), Eval(Padded(Lift(b)), 0, 1, |b|, u))
         == Eval(PartialProduct(a, b, j + 1), 0, 1, j + 1 + |b|, u)
  {
    var x := FromReal(a[j]);
    var aj := Eval(Padded(Lift(a)), 0, 1, j, u);
    var bb := Eval(Padded(Lift(b)), 0, 1, |b|, u);
    EvalAppend(Padded(Lift(a)), 0, j, u);
    assert Padded(Lift(a))(0 + j) == x;
    assert Eval(Padded(Lift(a)), 0, 1, j + 1, u) == Add(aj, Mul(x, Pow(u, j)));
    ProductSplit(aj, x, Pow(u, j), bb);
    PartialProductSplit(a, b, j, u);
    ShiftedTermValue(a, b, j, u);
  }

  /** Evaluation is multiplicative: A(u) * B(u) is the value at u of the
      product polynomial, for the first i coefficients of a. */
  lemma {:induction false} ProductOfEvals(a: seq<real>, b: seq<real>, i: nat, u: Complex)
    requires i <= |a|
    ensures Mul(Eval(Padded(Lift(a)), 0, 1, i, u), Eval(Padded(Lift(b)), 0, 1, |b|, u))
         == Eval(PartialProduct(a, b, i), 0, 1, i + |b|, u)
  {
    if i == 0 {
      MulZero(Eval(Padded(Lift(b)), 0, 1, |b|, u));
      EvalOfZeros(PartialProduct(a, b, 0), 0, |b|, u);
    } else {
      var j := i - 1;
      ProductOfEvals(a, b, j, u);
      ProductStep(a, b, j, u);
    }
  }

  // ---------------------------------------------------------------------
  // The padded buffers of multiply_polys

  /** The zero-extended input has the polynomial's values. */
  lemma PaddedInputValue(a: seq<real>, n: nat, u: Complex)
    requires |a| <= n
    ensures Eval(Padded(Lift(Resized(a, n))), 0, 1, n, u) == Eval(Padded(Lift(a)), 0, 1, |a|, u)
  {
    EvalPointwise(Padded(Lift(Resized(a, n))), Padded(Lift(a)), 0, n, u);
    EvalTrailingZeros(Padded(Lift(a)), |a|, n - |a|, u);
  }

  /** The zero-extended exact product has the product polynomial's values. */
  lemma PaddedProductValue(a: seq<real>, b: seq<real>, n: nat, u: Complex)
    requires |a| + |b| <= n
    ensures Eval(Padded(Lift(Resized(Convolve(a, b), n))), 0, 1, n, u)
         == Eval(PartialProduct(a, b, |a|), 0, 1, |a| + |b|, u)
  {
    var c := Padded(Lift(Resized(Convolve(a, b), n)));
    var p := PartialProduct(a, b, |a|);
    forall k: int | 0 <= k < n
      ensures c(k) == p(k)
    {
      if k >= |Convolve(a, b)| {
        ConvolveVanishes(a, b, k, |a|);
      }
    }
    EvalPointwise(c, p, 0, n, u);
    forall k: int | |a| + |b| <= k < n
      ensures p(k) == Zero
    {
      ConvolveVanishes(a, b, k, |a|);
    }
    EvalTrailingZeros(p, |a| + |b|, n - (|a| + |b|), u);
  }

  // ---------------------------------------------------------------------
  // multiply_polys with exact twiddles

  /** With an exact forward table the point values of the zero-extended input
      are its transform with the forward root. */
  lemma PointValuesAreDft(poly: seq<real>, lg: nat, cis: real -> Complex)
    requires ExactTwiddles(TwiddleTable(lg, false, cis))
    ensures PointValues(poly, lg, cis)
         == DftOf(Lift(Resized(poly, Pow2(lg))), Root(TwiddleTable(lg, false, cis), lg))
  {
    var x := Lift(Resized(poly, Pow2(lg)));
    var forward := TwiddleTable(lg, false, cis);
    RescaleUndoesNormalization(x, lg, forward);
    TransformIsDft(x, lg, forward);
  }

  /** The pointwise products of the point values are the transform of the
      zero-extended exact product. */
  lemma ProductValues(a: seq<real>, b: seq<real>, cis: real -> Complex)
    requires ExactTwiddles(TwiddleTable(SizeExponent(|a| + |b|), false, cis))
    ensures var lg := SizeExponent(|a| + |b|);
      Pointwise(PointValues(a, lg, cis), PointValues(b, lg, cis))
      == DftOf(Lift(Resized(Convolve(a, b), Pow2(lg))), Root(TwiddleTable(lg, false, cis), lg))
  {
    var lg := SizeExponent(|a| + |b|);
    var n := Pow2(lg);
    var w := Root(TwiddleTable(lg, false, cis), lg);
    ProductSizeSmallest(|a| + |b|);
    PointValuesAreDft(a, lg, cis);
    PointValuesAreDft(b, lg, cis);
    var values := Pointwise(PointValues(a, lg, cis), PointValues(b, lg, cis));
    var c := Lift(Resized(Convolve(a, b), n));
    forall k | 0 <= k < n
      ensures values[k] == DftOf(c, w)[k]
    {
      var u := Pow(w, k);
      PaddedInputValue(a, n, u);
      PaddedInputValue(b, n, u);
      ProductOfEvals(a, b, |a|, u);
      PaddedProductValue(a, b, n, u);
    }
  }

  /** With exact tables the inverse transform of the pointwise products is n
      times the zero-extended exact product. */
  lemma InverseOfProductValues(a: seq<real>, b: seq<real>, cis: real -> Complex)
    requires ExactTwiddles(TwiddleTable(SizeExponent(|a| + |b|), false, cis))
    requires forall t: real :: Mul(cis(-t), cis(t)) == One
    ensures var lg := SizeExponent(|a| + |b|);
      var c := Lift(Resized(Convolve(a, b), Pow2(lg)));
      var values := Pointwise(PointValues(a, lg, cis), PointValues(b, lg, cis));
      forall j :: 0 <= j < Pow2(lg) ==>
        Transformed(values, lg, TwiddleTable(lg, true, cis), true)[j] == Scale(c[j], Pow2(lg) as real)
  {
    var lg := SizeExponent(|a| + |b|);
    var n := Pow2(lg);
    var forward, inverse := TwiddleTable(lg, false, cis), TwiddleTable(lg, true, cis);
    var w, v := Root(forward, lg), Root(inverse, lg);
    var c := Lift(Resized(Convolve(a, b), n));
    var values := Pointwise(PointValues(a, lg, cis), PointValues(b, lg, cis));
    ProductValues(a, b, cis);
    TwiddleTablesReciprocal(lg, cis);
    ReciprocalExact(forward, inverse);
    TransformIsDft(values, lg, inverse);
    PrimitiveRoot(forward, lg);
    RootsReciprocal(forward, inverse, lg);
    DftInverse(c, w, v);
  }

  /** multiply_polys is exact when the twiddles are: with an exact forward
      table and exp(-i*t) * exp(i*t) == 1, the output is the coefficient
      vector of a * b extended with zeros to the transform size. */
  lemma ProductIsConvolution(a: seq<real>, b: seq<real>, cis: real -> Complex)
    requires ExactTwiddles(TwiddleTable(SizeExponent(|a| + |b|), false, cis))
    requires forall t: real :: Mul(cis(-t), cis(t)) == One
    ensures PolynomialProduct(a, b, cis) == Resized(Convolve(a, b), ProductSize(|a| + |b|))
  {
    var lg := SizeExponent(|a| + |b|);
    var n := Pow2(lg);
    var r := Resized(Convolve(a, b), n);
    var values := Pointwise(PointValues(a, lg, cis), PointValues(b, lg, cis));
    var z := Transformed(values, lg, TwiddleTable(lg, true, cis), true);
    InverseOfProductValues(a, b, cis);
    assert PolynomialProduct(a, b, cis) == Coefficients(z, n as real);
    forall j | 0 <= j < n
      ensures Coefficients(z, n as real)[j] == r[j]
    {
      assert z[j] == Scale(FromReal(r[j]), n as real);
      RealPartOfScaled(r[j], n as real);
    }
  }

  lemma RealPartOfScaled(x: real, d: real)
    requires d != 0.0
    ensures Scale(FromReal(x), d).re / d == x
  {
    assert (x * d) / d == x;
  }

  /** With exact twiddles the self-test of main succeeds: the product of
      9 + 3x + 7x^2 and 5 - 13x comes out as 45 - 102x - 4x^2 - 91x^3
      exactly. */
  lemma SelfTestSucceeds(cis: real -> Complex)
    requires ExactTwiddles(TwiddleTable(3, false, cis))
    requires forall t: real :: Mul(cis(-t), cis(t)) == One
    ensures PolynomialProduct([9.0, 3.0, 7.0], [5.0, -13.0], cis)
         == [45.0, -102.0, -4.0, -91.0, 0.0, 0.0, 0.0, 0.0]
    ensures SelfTestPasses(PolynomialProduct([9.0, 3.0, 7.0], [5.0, -13.0], cis))
  {
    SelfTestExpectsProduct();
    assert Pow2(3) == 8;
    Pow2Injective(SizeExponent(3 + 2), 3);
    ProductIsConvolution([9.0, 3.0, 7.0], [5.0, -13.0], cis);
    var r := Resized([45.0, -102.0, -4.0, -91.0], 8);
    assert r == [45.0, -102.0, -4.0, -91.0, 0.0, 0.0, 0.0, 0.0];
  }
}
