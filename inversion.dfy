/**
  The inverse transform undoes the forward one when the twiddle tables are
  exact and the inverse table holds the reciprocals of the forward one: the
  forward transform divides by n, the inverse one does not, and
  inverse(forward(x)) == x. The proof goes through the discrete Fourier
  transform: with W the forward root and V == 1/W, summing (W^i * V^j)^k over
  the n frequencies k gives n when i == j and 0 otherwise (the orthogonality
  of the roots of unity).
 */
module Inversion {
  import opened PowerOfTwo
  import opened ComplexNumbers
  import opened Butterflies
  import opened Dft
  import opened Engine

  // ---------------------------------------------------------------------
  // Finite sums

  /** f(0) + f(1) + ... + f(n - 1). */
  function Sum(f: nat -> Complex, n: nat): Complex
  {
    if n == 0 then Zero else Add(Sum(f, n - 1), f(n - 1))
  }

  lemma {:induction false} SumPointwise(f: nat -> Complex, g: nat -> Complex, n: nat)
    requires forall i: nat :: i < n ==> f(i) == g(i)
    ensures Sum(f, n) == Sum(g, n)
  {
    if n > 0 {
      SumPointwise(f, g, n - 1);
    }
  }

  lemma {:induction false} SumOfZeros(f: nat -> Complex, n: nat)
    requires forall i: nat :: i < n ==> f(i) == Zero
    ensures Sum(f, n) == Zero
  {
    if n > 0 {
      SumOfZeros(f, n - 1);
    }
  }

  /** A sum whose terms vanish except at j is its term j. */
  lemma {:induction false} SumOfSingle(f: nat -> Complex, n: nat, j: nat)
    requires j < n && forall i: nat :: i < n && i != j ==> f(i) == Zero
    ensures Sum(f, n) == f(j)
  {
    if j == n - 1 {
      SumOfZeros(f, n - 1);
    } else {
      SumOfSingle(f, n - 1, j);
    }
  }

  /** Sums add termwise. */
  lemma {:induction false} SumOfSums(f: nat -> Complex, g: nat -> Complex, h: nat -> Complex, n: nat)
    requires forall i: nat :: i < n ==> h(i) == Add(f(i), g(i))
    ensures Sum(h, n) == Add(Sum(f, n), Sum(g, n))
  {
    if n > 0 {
      SumOfSums(f, g, h, n - 1);
    }
  }

  /** A constant factor comes out of a sum. */
  lemma {:induction false} SumScaled(c: Complex, f: nat -> Complex, h: nat -> Complex, n: nat)
    requires forall i: nat :: i < n ==> h(i) == Mul(c, f(i))
    ensures Sum(h, n) == Mul(c, Sum(f, n))
  {
    if n == 0 {
      MulZero(c);
    } else {
      SumScaled(c, f, h, n - 1);
      MulDistributesAdd(c, Sum(f, n - 1), f(n - 1));
    }
  }

  /** Row k of a double-indexed family of terms: i => g(i, k). */
  function Row(g: (nat, nat) -> Complex, k: nat): nat -> Complex
  {
    (i: nat) => g(i, k)
  }

  /** Column i of a double-indexed family of terms: k => g(i, k). */
  function Column(g: (nat, nat) -> Complex, i: nat): nat -> Complex
  {
    (k: nat) => g(i, k)
  }

  /** The sums of the rows, k => g(0, k) + ... + g(m - 1, k). */
  function RowSums(g: (nat, nat) -> Complex, m: nat): nat -> Complex
  {
    (k: nat) => Sum(Row(g, k), m)
  }

  /** The sums of the columns, i => g(i, 0) + ... + g(i, n - 1). */
  function ColumnSums(g: (nat, nat) -> Complex, n: nat): nat -> Complex
  {
    (i: nat) => Sum(Column(g, i), n)
  }

  /** The order of a double sum does not matter. */
  lemma {:induction false} SumSwap(g: (nat, nat) -> Complex, n: nat, m: nat)
    ensures Sum(RowSums(g, m), n) == Sum(ColumnSums(g, n), m)
  {
    if n > 0 {
      SumSwap(g, n - 1, m);
      forall i: nat | i < m
        ensures ColumnSums(g, n)(i) == Add(ColumnSums(g, n - 1)(i), Row(g, n - 1)(i))
      {
        assert Column(g, i)(n - 1) == g(i, n - 1);
      }
      SumOfSums(ColumnSums(g, n - 1), Row(g, n - 1), ColumnSums(g, n), m);
      assert RowSums(g, m)(n - 1) == Sum(Row(g, n - 1), m);
    } else {
      SumOfZeros(ColumnSums(g, 0), m);
    }
  }

  // ---------------------------------------------------------------------
  // Horner evaluation as a sum

  /** One more coefficient adds its term at the top: the Horner evaluation of
      len + 1 coefficients is that of len plus c(o + len) * u^len. */
  lemma {:induction false} EvalAppend(c: int -> Complex, o: nat, len: nat, u: Complex)
    ensures Eval(c, o, 1, len + 1, u) == Add(Eval(c, o, 1, len, u), Mul(c(o + len), Pow(u, len)))
    decreases len
  {
    if len > 0 {
      var e := Eval(c, o + 1, 1, len - 1, u);
      var t := Mul(c(o + len), Pow(u, len - 1));
      EvalAppend(c, o + 1, len - 1, u);
      assert Eval(c, o + 1, 1, len, u) == Add(e, t);
      MulDistributesAdd(u, e, t);
      MulCommutesScalar(u, c(o + len), Pow(u, len - 1));
      assert Mul(u, Pow(u, len - 1)) == Pow(u, len);
    }
  }

  /** The terms c(i) * u^i of the polynomial with coefficients c at u. */
  function Terms(c: int -> Complex, u: Complex): nat -> Complex
  {
    (i: nat) => Mul(c(i), Pow(u, i))
  }

  /** Horner's rule computes the sum of c(i) * u^i over i < len. */
  lemma {:induction false} EvalAsSum(c: int -> Complex, len: nat, u: Complex)
    ensures Eval(c, 0, 1, len, u) == Sum(Terms(c, u), len)
  {
    if len > 0 {
      EvalAsSum(c, len - 1, u);
      EvalAppend(c, 0, len - 1, u);
    }
  }

  // ---------------------------------------------------------------------
  // Geometric sums

  /** The powers k => q^k. */
  function Powers(q: Complex): nat -> Complex
  {
    (k: nat) => Pow(q, k)
  }

  /** q * (1 + q + ... + q^(n-1)) + 1 == (1 + q + ... + q^(n-1)) + q^n. */
  lemma {:induction false} GeometricShift(q: Complex, n: nat)
    ensures Add(Mul(q, Sum(Powers(q), n)), One) == Add(Sum(Powers(q), n), Pow(q, n))
  {
    if n == 0 {
      assert Sum(Powers(q), 0) == Zero && Pow(q, 0) == One;
      MulZero(q);
    } else {
      GeometricShift(q, n - 1);
      MulDistributesAdd(q, Sum(Powers(q), n - 1), Pow(q, n - 1));
      assert Mul(q, Pow(q, n - 1)) == Pow(q, n);
    }
  }

  lemma {:induction false} PowOfOne(k: nat)
    ensures Pow(One, k) == One
  {
    if k > 0 {
      var j := k - 1;
      PowOfOne(j);
      assert Pow(One, j + 1) == Mul(One, One);
    }
  }

  /** n powers of 1 add up to n. */
  lemma {:induction false} GeometricOfOne(n: nat)
    ensures Sum(Powers(One), n) == FromReal(n as real)
  {
    if n > 0 {
      var j := n - 1;
      GeometricOfOne(j);
      PowOfOne(j);
      GeometricOfOneStep(j);
    }
  }

  lemma GeometricOfOneStep(j: nat)
    requires Sum(Powers(One), j) == FromReal(j as real) && Pow(One, j) == One
    ensures Sum(Powers(One), j + 1) == FromReal((j + 1) as real)
  {
    assert Powers(One)(j) == One;
  }

  /** The complex numbers have no zero divisors. */
  lemma NoZeroDivisors(a: Complex, b: Complex)
    requires Mul(a, b) == Zero && a != Zero
    ensures b == Zero
  {
    var p, q, r, s := a.re, a.im, b.re, b.im;
    assert p * r - q * s == 0.0 && p * s + q * r == 0.0;
    assert (p * p + q * q) * r == p * (p * r - q * s) + q * (p * s + q * r);
    assert (p * p + q * q) * s == p * (p * s + q * r) - q * (p * r - q * s);
    assert p * p + q * q > 0.0;
  }

  /** A root of unity other than 1: the geometric sum of its n powers is 0
      when its n-th power is 1. */
  lemma GeometricVanishes(q: Complex, n: nat)
    requires Pow(q, n) == One && q != One
    ensures Sum(Powers(q), n) == Zero
  {
    var g := Sum(Powers(q), n);
    GeometricShift(q, n);
    assert Mul(q, g) == g;
    FixedPoint(q, g);
    NoZeroDivisors(Sub(q, One), g);
  }

  /** q * g == g means (q - 1) * g == 0. */
  lemma FixedPoint(q: Complex, g: Complex)
    requires Mul(q, g) == g
    ensures Mul(Sub(q, One), g) == Zero
  {
  }

  // ---------------------------------------------------------------------
  // Roots of unity

  /** w^(a*b) == (w^a)^b. */
  lemma {:induction false} PowMultiply(w: Complex, a: nat, b: nat)
    ensures Pow(w, a * b) == Pow(Pow(w, a), b)
  {
    if b == 0 {
      assert a * 0 == 0;
      assert Pow(w, 0) == One && Pow(Pow(w, a), 0) == One;
    } else {
      PowMultiply(w, a, b - 1);
      assert a * b == a * (b - 1) + a;
      PowAdd(w, a * (b - 1), a);
    }
  }

  lemma PowTwo(w: Complex)
    ensures Pow(w, 2) == Mul(w, w)
  {
    assert Pow(w, 1) == Mul(One, w);
    MulOne(w);
  }

  /** (w^k)^i == (w^i)^k. */
  lemma PowOfPow(w: Complex, i: nat, k: nat)
    ensures Pow(Pow(w, k), i) == Pow(Pow(w, i), k)
  {
    PowMultiply(w, k, i);
    PowMultiply(w, i, k);
    assert k * i == i * k;
  }

  lemma {:induction false} NegOnePowOdd(d: nat)
    requires d % 2 == 1
    ensures Pow(NegOne, d) == NegOne
    decreases d
  {
    if d == 1 {
      assert Pow(NegOne, 1) == Mul(Pow(NegOne, 0), NegOne);
      assert Pow(NegOne, 0) == One;
    } else {
      NegOnePowOdd(d - 2);
      assert Pow(NegOne, d) == Mul(Mul(Pow(NegOne, d - 2), NegOne), NegOne);
    }
  }

  /** The twiddle of stage s of an exact table is a primitive 2^(s+1)-th root
      of unity: no power below 2^(s+1) is 1. */
  lemma {:induction false} RootPrimitive(omega: seq<Complex>, s: nat, d: nat)
    requires ExactTwiddles(omega) && s < |omega| && 0 < d < Pow2(s + 1)
    ensures Pow(omega[s], d) != One
    decreases s
  {
    var w := omega[s];
    if d % 2 == 0 {
      var e := d / 2;
      assert s > 0 && e < Pow2(s);
      assert SquareAt(omega, s - 1);
      PowTwo(w);
      PowMultiply(w, 2, e);
      RootPrimitive(omega, s - 1, e);
    } else {
      assert HalfTurnAt(omega, s);
      PowMultiply(w, d, Pow2(s));
      PowMultiply(w, Pow2(s), d);
      assert d * Pow2(s) == Pow2(s) * d;
      NegOnePowOdd(d);
      PowOfOne(Pow2(s));
    }
  }

  /** The 2^(s+1)-th power of the twiddle of stage s is 1. */
  lemma RootOrder(omega: seq<Complex>, s: nat)
    requires s < |omega| && HalfTurnAt(omega, s)
    ensures Pow(omega[s], Pow2(s + 1)) == One
  {
    var h := Pow2(s);
    assert Pow2(s + 1) == h * 2;
    PowMultiply(omega[s], h, 2);
    PowTwo(NegOne);
  }

  /** The root of the transform of size n == 2^L is a primitive n-th root of
      unity. */
  lemma PrimitiveRoot(omega: seq<Complex>, L: nat)
    requires ExactTwiddles(omega) && L <= |omega|
    ensures Pow(Root(omega, L), Pow2(L)) == One
    ensures forall d: nat :: 0 < d < Pow2(L) ==> Pow(Root(omega, L), d) != One
  {
    if L == 0 {
      assert Pow2(0) == 1;
      PowOfOne(1);
    } else {
      var s := L - 1;
      assert HalfTurnAt(omega, s);
      RootOrder(omega, s);
      forall d: nat | 0 < d < Pow2(s + 1)
        ensures Pow(omega[s], d) != One
      {
        RootPrimitive(omega, s, d);
      }
    }
  }

  // ---------------------------------------------------------------------
  // Orthogonality

  /** The inverse of an n-th root of unity is one too. */
  lemma InversePower(w: Complex, v: Complex, n: nat)
    requires Mul(w, v) == One && Pow(w, n) == One
    ensures Pow(v, n) == One
  {
    PowOfProduct(w, v, n);
    PowOfOne(n);
    MulOne(Pow(v, n));
  }

  /** With v == 1/w, w^i * v^i == 1. */
  lemma PowCancels(w: Complex, v: Complex, i: nat)
    requires Mul(w, v) == One
    ensures Mul(Pow(w, i), Pow(v, i)) == One
  {
    PowOfProduct(w, v, i);
    PowOfOne(i);
  }

  /** Above the diagonal, w^i * v^j == w^(i-j). */
  lemma RatioAbove(w: Complex, v: Complex, i: nat, j: nat)
    requires Mul(w, v) == One && j < i
    ensures Mul(Pow(w, i), Pow(v, j)) == Pow(w, i - j)
  {
    PowAdd(w, i - j, j);
    MulAssociative(Pow(w, i - j), Pow(w, j), Pow(v, j));
    PowCancels(w, v, j);
    MulOne(Pow(w, i - j));
  }

  /** Below the diagonal, w^i * v^j == v^(j-i). */
  lemma RatioBelow(w: Complex, v: Complex, i: nat, j: nat)
    requires Mul(w, v) == One && i < j
    ensures Mul(Pow(w, i), Pow(v, j)) == Pow(v, j - i)
  {
    PowAdd(v, i, j - i);
    MulAssociative(Pow(w, i), Pow(v, i), Pow(v, j - i));
    PowCancels(w, v, i);
    MulOne(Pow(v, j - i));
  }

  /** A power w^d with 0 < d < n of a root w of order n, whose n-th power is
      1 and which is not 1: its geometric sum over n terms vanishes. */
  lemma GeometricOfPower(w: Complex, n: nat, d: nat)
    requires Pow(w, n) == One && Pow(w, d) != One
    ensures Sum(Powers(Pow(w, d)), n) == Zero
  {
    PowOfPow(w, n, d);
    PowOfOne(d);
    GeometricVanishes(Pow(w, d), n);
  }

  /** Off the diagonal, above it: w^i * v^j is the power w^(i-j) of the
      primitive root, 0 < i - j < n, so its geometric sum vanishes. */
  lemma OrthogonalAbove(w: Complex, v: Complex, n: nat, i: nat, j: nat)
    requires Mul(w, v) == One && Pow(w, n) == One
    requires j < i < n && Pow(w, i - j) != One
    ensures Sum(Powers(Mul(Pow(w, i), Pow(v, j))), n) == Zero
  {
    RatioAbove(w, v, i, j);
    GeometricOfPower(w, n, i - j);
  }

  /** Off the diagonal, below it: w^i * v^j == v^(j-i), which is not 1 since
      w^(j-i) is not. */
  lemma OrthogonalBelow(w: Complex, v: Complex, n: nat, i: nat, j: nat)
    requires Mul(w, v) == One && Pow(w, n) == One
    requires i < j < n && Pow(w, j - i) != One
    ensures Sum(Powers(Mul(Pow(w, i), Pow(v, j))), n) == Zero
  {
    var d := j - i;
    RatioBelow(w, v, i, j);
    InversePower(w, v, n);
    PowCancels(w, v, d);
    MulOne(Pow(w, d));
    assert Pow(v, d) != One;
    GeometricOfPower(v, n, d);
  }

  /** The orthogonality of the n-th roots of unity: for a primitive n-th root w
      and v == 1/w, the n powers of w^i * v^j add up to n when i == j and to 0
      otherwise. */
  lemma Orthogonality(w: Complex, v: Complex, n: nat, i: nat, j: nat)
    requires Mul(w, v) == One && Pow(w, n) == One
    requires forall d: nat :: 0 < d < n ==> Pow(w, d) != One
    requires i < n && j < n
    ensures Sum(Powers(Mul(Pow(w, i), Pow(v, j))), n) == if i == j then FromReal(n as real) else Zero
  {
    if i == j {
      PowCancels(w, v, i);
      GeometricOfOne(n);
    } else if j < i {
      OrthogonalAbove(w, v, n, i, j);
    } else {
      OrthogonalBelow(w, v, n, i, j);
    }
  }

  // ---------------------------------------------------------------------
  // The inverse discrete Fourier transform

  /** The terms (v^j)^k * x[i] * (w^k)^i of entry j of the transform with
      root v of the transform of x with root w, indexed by (i, k). */
  function Kernel(x: seq<Complex>, w: Complex, v: Complex, j: nat): (nat, nat) -> Complex
  {
    (i: nat, k: nat) => Mul(Pow(Pow(v, j), k), Mul(At(x, i), Pow(Pow(w, k), i)))
  }

  /** Term k of entry j of the second transform is the sum of row k of the
      kernel. */
  lemma KernelRow(x: seq<Complex>, w: Complex, v: Complex, j: nat, k: nat)
    requires k < |x|
    ensures Terms(Padded(DftOf(x, w)), Pow(v, j))(k) == RowSums(Kernel(x, w, v, j), |x|)(k)
  {
    var n := |x|;
    var p := Pow(Pow(v, j), k);
    var inner := Terms(Padded(x), Pow(w, k));
    EvalAsSum(Padded(x), n, Pow(w, k));
    assert At(DftOf(x, w), k) == Sum(inner, n);
    SumScaled(p, inner, Row(Kernel(x, w, v, j), k), n);
    assert Mul(Sum(inner, n), p) == Mul(p, Sum(inner, n));
  }

  /** One kernel entry: (v^j)^k * (x[i] * (w^k)^i) == x[i] * (w^i * v^j)^k. */
  lemma KernelEntry(a: Complex, w: Complex, v: Complex, i: nat, j: nat, k: nat)
    ensures Mul(Pow(Pow(v, j), k), Mul(a, Pow(Pow(w, k), i))) == Mul(a, Pow(Mul(Pow(w, i), Pow(v, j)), k))
  {
    PowOfPow(w, i, k);
    PowOfProduct(Pow(w, i), Pow(v, j), k);
    var p, q := Pow(Pow(v, j), k), Pow(Pow(w, i), k);
    MulCommutesScalar(p, a, q);
    assert Mul(p, q) == Mul(q, p);
  }

  /** Column i of the kernel adds up to n * x[j] on the diagonal i == j and to
      0 elsewhere. */
  lemma KernelColumn(x: seq<Complex>, w: Complex, v: Complex, j: nat, i: nat)
    requires Mul(w, v) == One && Pow(w, |x|) == One
    requires forall d: nat :: 0 < d < |x| ==> Pow(w, d) != One
    requires i < |x| && j < |x|
    ensures ColumnSums(Kernel(x, w, v, j), |x|)(i) == if i == j then Scale(x[i], |x| as real) else Zero
  {
    var n := |x|;
    var q := Mul(Pow(w, i), Pow(v, j));
    var g := Kernel(x, w, v, j);
    forall k: nat | k < n
      ensures Column(g, i)(k) == Mul(At(x, i), Powers(q)(k))
    {
      KernelEntry(At(x, i), w, v, i, j, k);
    }
    SumScaled(At(x, i), Powers(q), Column(g, i), n);
    Orthogonality(w, v, n, i, j);
    if i == j {
      MulByReal(x[i], n as real);
    } else {
      MulZero(x[i]);
    }
  }

  lemma MulByReal(a: Complex, r: real)
    ensures Mul(a, FromReal(r)) == Scale(a, r)
  {
  }

  /** Entry j of the transform with root v == 1/w of the transform with a
      primitive n-th root w is n * x[j]. */
  lemma DftInverseAt(x: seq<Complex>, w: Complex, v: Complex, j: nat)
    requires Mul(w, v) == One && Pow(w, |x|) == One
    requires forall d: nat :: 0 < d < |x| ==> Pow(w, d) != One
    requires j < |x|
    ensures DftOf(DftOf(x, w), v)[j] == Scale(x[j], |x| as real)
  {
    var n := |x|;
    var g := Kernel(x, w, v, j);
    var outer := Terms(Padded(DftOf(x, w)), Pow(v, j));
    EvalAsSum(Padded(DftOf(x, w)), n, Pow(v, j));
    forall k: nat | k < n
      ensures outer(k) == RowSums(g, n)(k)
    {
      KernelRow(x, w, v, j, k);
    }
    SumPointwise(outer, RowSums(g, n), n);
    SumSwap(g, n, n);
    forall i: nat | i < n && i != j
      ensures ColumnSums(g, n)(i) == Zero
    {
      KernelColumn(x, w, v, j, i);
    }
    SumOfSingle(ColumnSums(g, n), n, j);
    KernelColumn(x, w, v, j, j);
  }

  /** The transform with root 1/w undoes the transform with a primitive n-th
      root of unity w, up to the factor n. */
  lemma DftInverse(x: seq<Complex>, w: Complex, v: Complex)
    requires Mul(w, v) == One && Pow(w, |x|) == One
    requires forall d: nat :: 0 < d < |x| ==> Pow(w, d) != One
    ensures forall j :: 0 <= j < |x| ==> DftOf(DftOf(x, w), v)[j] == Scale(x[j], |x| as real)
  {
    forall j | 0 <= j < |x|
      ensures DftOf(DftOf(x, w), v)[j] == Scale(x[j], |x| as real)
    {
      DftInverseAt(x, w, v, j);
    }
  }

  // ---------------------------------------------------------------------
  // Division by n

  /** Dividing every coefficient by d divides the polynomial's value by d. */
  lemma {:induction false} EvalDivided(c: int -> Complex, cd: int -> Complex, o: nat, len: nat, u: Complex, d: real)
    requires d != 0.0
    requires forall i: int :: o <= i < o + len ==> cd(i) == DivReal(c(i), d)
    ensures Eval(cd, o, 1, len, u) == DivReal(Eval(c, o, 1, len, u), d)
    decreases len
  {
    if len == 0 {
      assert Eval(cd, o, 1, 0, u) == Zero && Eval(c, o, 1, 0, u) == Zero;
    } else {
      var e := Eval(c, o + 1, 1, len - 1, u);
      EvalDivided(c, cd, o + 1, len - 1, u, d);
      DivRealMul(u, e, d);
      DivRealAdd(c(o), Mul(u, e), d);
    }
  }

  /** The transform of the normalized buffer is the normalized transform. */
  lemma DftOfNormalized(y: seq<Complex>, v: Complex)
    requires |y| >= 1
    ensures DftOf(Normalized(y), v) == Normalized(DftOf(y, v))
  {
    var n := |y|;
    forall k | 0 <= k < n
      ensures DftOf(Normalized(y), v)[k] == Normalized(DftOf(y, v))[k]
    {
      EvalDivided(Padded(y), Padded(Normalized(y)), 0, n, Pow(v, k), n as real);
    }
  }

  lemma DivRealOfScale(c: Complex, r: real)
    requires r != 0.0
    ensures DivReal(Scale(c, r), r) == c
  {
    assert (c.re * r) / r == c.re;
    assert (c.im * r) / r == c.im;
  }

  // ---------------------------------------------------------------------
  // Reciprocal twiddle tables

  /** The inverse table holds the reciprocals of the forward one, stage by
      stage: exp(-i*theta) * exp(i*theta) == 1. */
  ghost predicate Reciprocal(forward: seq<Complex>, inverse: seq<Complex>)
  {
    |forward| == |inverse| && forall s: nat :: s < |forward| ==> Mul(forward[s], inverse[s]) == One
  }

  lemma NegOneInverse(y: Complex)
    requires Mul(NegOne, y) == One
    ensures y == NegOne
  {
  }

  /** A complex number has at most one reciprocal. */
  lemma ReciprocalUnique(a: Complex, b: Complex, b2: Complex)
    requires Mul(a, b) == One && Mul(a, b2) == One
    ensures b == b2
  {
    assert a != Zero by {
      MulZero(b);
    }
    assert Mul(a, Sub(b, b2)) == Sub(Mul(a, b), Mul(a, b2));
    NoZeroDivisors(a, Sub(b, b2));
  }

  /** The reciprocals of an exact table form an exact table. */
  lemma ReciprocalExact(forward: seq<Complex>, inverse: seq<Complex>)
    requires ExactTwiddles(forward) && Reciprocal(forward, inverse)
    ensures ExactTwiddles(inverse)
  {
    forall s: nat | s < |inverse|
      ensures HalfTurnAt(inverse, s)
    {
      var h := Pow2(s);
      assert HalfTurnAt(forward, s);
      PowCancels(forward[s], inverse[s], h);
      NegOneInverse(Pow(inverse[s], h));
    }
    forall s: nat | s + 1 < |inverse|
      ensures SquareAt(inverse, s)
    {
      var f, g := forward[s + 1], inverse[s + 1];
      assert SquareAt(forward, s);
      assert Mul(f, g) == One;
      MulInterchange(f, f, g, g);
      MulOne(One);
      ReciprocalUnique(forward[s], inverse[s], Mul(g, g));
    }
  }

  /** The roots of reciprocal tables are reciprocal. */
  lemma RootsReciprocal(forward: seq<Complex>, inverse: seq<Complex>, L: nat)
    requires Reciprocal(forward, inverse) && L <= |forward|
    ensures Mul(Root(forward, L), Root(inverse, L)) == One
  {
    if L == 0 {
      MulOne(One);
    }
  }

  // ---------------------------------------------------------------------
  // The round trips

  /** With an exact forward table and its reciprocal as the inverse table, the
      inverse transform of the forward transform is the input. */
  lemma RoundTrip(x: seq<Complex>, lgN: nat, forward: seq<Complex>, inverse: seq<Complex>)
    requires Sized(|x|, lgN) && |x| >= 1 && |forward| == lgN
    requires ExactTwiddles(forward) && Reciprocal(forward, inverse)
    ensures Transformed(Transformed(x, lgN, forward, false), lgN, inverse, true) == x
  {
    var n := |x|;
    var w, v := Root(forward, lgN), Root(inverse, lgN);
    ReciprocalExact(forward, inverse);
    PrimitiveRoot(forward, lgN);
    RootsReciprocal(forward, inverse, lgN);
    TransformIsDft(x, lgN, forward);
    var y := Transformed(x, lgN, forward, false);
    assert y == Normalized(DftOf(x, w));
    TransformIsDft(y, lgN, inverse);
    DftOfNormalized(DftOf(x, w), v);
    DftInverse(x, w, v);
    var z := Transformed(y, lgN, inverse, true);
    assert z == Normalized(DftOf(DftOf(x, w), v));
    forall j | 0 <= j < n
      ensures z[j] == x[j]
    {
      DivRealOfScale(x[j], n as real);
    }
  }

  /** The other order: the forward transform of the inverse transform is the
      input. */
  lemma RoundTripInverseFirst(x: seq<Complex>, lgN: nat, forward: seq<Complex>, inverse: seq<Complex>)
    requires Sized(|x|, lgN) && |x| >= 1 && |forward| == lgN
    requires ExactTwiddles(forward) && Reciprocal(forward, inverse)
    ensures Transformed(Transformed(x, lgN, inverse, true), lgN, forward, false) == x
  {
    var n := |x|;
    var w, v := Root(forward, lgN), Root(inverse, lgN);
    ReciprocalExact(forward, inverse);
    PrimitiveRoot(inverse, lgN);
    RootsReciprocal(forward, inverse, lgN);
    assert Mul(v, w) == One;
    TransformIsDft(x, lgN, inverse);
    var y := Transformed(x, lgN, inverse, true);
    assert y == DftOf(x, v);
    TransformIsDft(y, lgN, forward);
    DftInverse(x, v, w);
    var z := Transformed(y, lgN, forward, false);
    assert z == Normalized(DftOf(DftOf(x, v), w));
    forall j | 0 <= j < n
      ensures z[j] == x[j]
    {
      DivRealOfScale(x[j], n as real);
    }
  }

  /** The engine's two tables are reciprocal when exp(-i*t) * exp(i*t) == 1:
      each stage's forward angle is the negated inverse angle. */
  lemma TwiddleTablesReciprocal(lgN: nat, cis: real -> Complex)
    requires forall t: real :: Mul(cis(-t), cis(t)) == One
    ensures Reciprocal(TwiddleTable(lgN, false, cis), TwiddleTable(lgN, true, cis))
  {
    forall s: nat | s < lgN
      ensures Mul(TwiddleTable(lgN, false, cis)[s], TwiddleTable(lgN, true, cis)[s]) == One
    {
      ExponentSigns(Pow2(s + 1));
    }
  }

  /** FFT(n, true) undoes FFT(n, false), and FFT(n, false) undoes FFT(n, true),
      when the forward table is exact and exp(-i*t) * exp(i*t) == 1. */
  lemma EngineRoundTrip(x: seq<Complex>, lgN: nat, cis: real -> Complex)
    requires Sized(|x|, lgN) && |x| >= 1
    requires ExactTwiddles(TwiddleTable(lgN, false, cis))
    requires forall t: real :: Mul(cis(-t), cis(t)) == One
    ensures Transformed(Transformed(x, lgN, TwiddleTable(lgN, false, cis), false), lgN, TwiddleTable(lgN, true, cis), true) == x
    ensures Transformed(Transformed(x, lgN, TwiddleTable(lgN, true, cis), true), lgN, TwiddleTable(lgN, false, cis), false) == x
  {
    TwiddleTablesReciprocal(lgN, cis);
    RoundTrip(x, lgN, TwiddleTable(lgN, false, cis), TwiddleTable(lgN, true, cis));
    RoundTripInverseFirst(x, lgN, TwiddleTable(lgN, false, cis), TwiddleTable(lgN, true, cis));
  }
}
