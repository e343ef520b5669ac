/**
  The engine's complex numbers (std::complex<double> in the source), with the
  real and imaginary parts as exact reals: the arithmetic the butterfly network
  and its consumers use.
 */
module ComplexNumbers {

  datatype Complex = Complex(re: real, im: real)

  const Zero := Complex(0.0, 0.0)
  const One := Complex(1.0, 0.0)

  function Add(a: Complex, b: Complex): Complex
  {
    Complex(a.re + b.re, a.im + b.im)
  }

  function Sub(a: Complex, b: Complex): Complex
  {
    Complex(a.re - b.re, a.im - b.im)
  }

  function Mul(a: Complex, b: Complex): Complex
  {
    Complex(a.re * b.re - a.im * b.im, a.re * b.im + a.im * b.re)
  }

  /** A complex number times a real scalar (`c *= n` in the source). */
  function Scale(c: Complex, x: real): Complex
  {
    Complex(c.re * x, c.im * x)
  }

  /** A complex number divided by a non-zero real scalar (`c /= n`). */
  function DivReal(c: Complex, x: real): Complex
    requires x != 0.0
  {
    Complex(c.re / x, c.im / x)
  }

  /** The j-th power built the way the butterfly loop builds it: one
      multiplication by w per step, starting from 1. */
  function Pow(w: Complex, j: nat): Complex
  {
    if j == 0 then One else Mul(Pow(w, j - 1), w)
  }

  /** The real number x as a complex value with imaginary part 0 (the implicit
      conversion double -> std::complex<double>). */
  function FromReal(x: real): Complex
  {
    Complex(x, 0.0)
  }

  /** The absolute value of a real (std::abs on double). */
  function Abs(x: real): (r: real)
    ensures r >= 0.0 && (r == x || r == -x)
  {
    if x < 0.0 then -x else x
  }

  lemma MulZero(a: Complex)
    ensures Mul(a, Zero) == Zero && Mul(Zero, a) == Zero
  {
  }

  lemma MulAssociative(a: Complex, b: Complex, c: Complex)
    ensures Mul(Mul(a, b), c) == Mul(a, Mul(b, c))
  {
  }

  lemma MulDistributesAdd(w: Complex, a: Complex, b: Complex)
    ensures Mul(w, Add(a, b)) == Add(Mul(w, a), Mul(w, b))
  {
  }

  /** w * (c * a) == c * (w * a), and c distributes over the butterfly's sum and
      difference. */
  lemma MulCommutesScalar(w: Complex, c: Complex, a: Complex)
    ensures Mul(w, Mul(c, a)) == Mul(c, Mul(w, a))
    ensures forall u :: Add(Mul(c, u), Mul(c, Mul(w, a))) == Mul(c, Add(u, Mul(w, a)))
    ensures forall u :: Sub(Mul(c, u), Mul(c, Mul(w, a))) == Mul(c, Sub(u, Mul(w, a)))
  {
    calc {
      Mul(w, Mul(c, a));
      { MulAssociative(w, c, a); }
      Mul(Mul(w, c), a);
      { assert Mul(w, c) == Mul(c, w); }
      Mul(Mul(c, w), a);
      { MulAssociative(c, w, a); }
      Mul(c, Mul(w, a));
    }
  }

  lemma MulScale(w: Complex, a: Complex, x: real)
    ensures Mul(w, Scale(a, x)) == Scale(Mul(w, a), x)
  {
  }

  lemma RealDivAdd(a: real, b: real, d: real)
    requires d != 0.0
    ensures (a + b) / d == a / d + b / d && (a - b) / d == a / d - b / d
  {
    var p, q := a / d, b / d;
    assert p * d == a && q * d == b;
    assert (p + q) * d == a + b && (p - q) * d == a - b;
  }

  lemma RealDivMul(c: real, a: real, d: real)
    requires d != 0.0
    ensures (c * a) / d == c * (a / d)
  {
    var p := a / d;
    assert p * d == a;
    assert (c * p) * d == c * a;
  }

  lemma DivRealAdd(a: Complex, b: Complex, d: real)
    requires d != 0.0
    ensures DivReal(Add(a, b), d) == Add(DivReal(a, d), DivReal(b, d))
  {
    RealDivAdd(a.re, b.re, d);
    RealDivAdd(a.im, b.im, d);
  }

  lemma DivRealMul(c: Complex, a: Complex, d: real)
    requires d != 0.0
    ensures DivReal(Mul(c, a), d) == Mul(c, DivReal(a, d))
  {
    RealDivMul(c.re, a.re, d);
    RealDivMul(c.im, a.im, d);
    RealDivMul(c.re, a.im, d);
    RealDivMul(c.im, a.re, d);
    RealDivAdd(c.re * a.re, c.im * a.im, d);
    RealDivAdd(c.re * a.im, c.im * a.re, d);
  }

  /** Scaling undoes the division by the same scalar. */
  lemma ScaleDivReal(c: Complex, x: real)
    requires x != 0.0
    ensures Scale(DivReal(c, x), x) == c
  {
  }
}
