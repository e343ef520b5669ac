/**
  What the butterfly network computes when the twiddle table is exact: the
  discrete Fourier transform. A table is exact when omega[s]^(2^s) == -1 for
  every stage s and each stage's twiddle is the square of the next stage's,
  which is what exp(-+2*pi*i/2^(s+1)) satisfies with the true pi. Then after s
  stages every block of 2^s elements of the bit-reversed buffer holds the
  transform of one stride-n/2^s subsequence of the input (the Danielson-Lanczos
  decomposition), and after all lgN stages the buffer is the transform of
  the whole input.

  Frequency k of a transform with root w is the polynomial whose coefficients
  are the input, evaluated at w^k; the proofs work with those evaluations.
 */
module Dft {
  import opened PowerOfTwo
  import opened ComplexNumbers
  import opened BitReversal
  import opened Butterflies

  const NegOne := Complex(-1.0, 0.0)

  /** x[i] inside the buffer, 0 outside. */
  function At(x: seq<Complex>, i: int): Complex
  {
    if 0 <= i < |x| then x[i] else Zero
  }

  /** The buffer x as coefficients indexed by every integer, 0 outside x. */
  function Padded(x: seq<Complex>): int -> Complex
  {
    i => At(x, i)
  }

  /** The polynomial with the len coefficients c(o), c(o + st), c(o + 2*st), ...
      evaluated at u by Horner's rule: the sum of c(o + i*st) * u^i for
      i < len. */
  function Eval(c: int -> Complex, o: nat, st: nat, len: nat, u: Complex): Complex
    decreases len
  {
    if len == 0 then Zero else Add(c(o), Mul(u, Eval(c, o + st, st, len - 1, u)))
  }

  /** The discrete Fourier transform of x with root w: entry k is the sum of
      x[i] * (w^k)^i over all i. */
  function DftOf(x: seq<Complex>, w: Complex): (r: seq<Complex>)
    ensures |r| == |x|
  {
    seq(|x|, k requires 0 <= k < |x| => Eval(Padded(x), 0, 1, |x|, Pow(w, k)))
  }

  /** The twiddle of stage s is a primitive 2^(s+1)-th root of unity: its
      2^s-th power is -1. */
  ghost predicate HalfTurnAt(omega: seq<Complex>, s: nat)
    requires s < |omega|
  {
    Pow(omega[s], Pow2(s)) == NegOne
  }

  /** The twiddle of stage s is the square of the twiddle of stage s + 1. */
  ghost predicate SquareAt(omega: seq<Complex>, s: nat)
    requires s + 1 < |omega|
  {
    omega[s] == Mul(omega[s + 1], omega[s + 1])
  }

  /** An exact twiddle table. */
  ghost predicate ExactTwiddles(omega: seq<Complex>)
  {
    (forall s: nat :: s < |omega| ==> HalfTurnAt(omega, s))
    && (forall s: nat :: s + 1 < |omega| ==> SquareAt(omega, s))
  }

  /** The root of unity of the blocks after s stages: omega[s-1], and 1 before
      the first stage. */
  function Root(omega: seq<Complex>, s: nat): Complex
    requires s <= |omega|
  {
    if s == 0 then One else omega[s - 1]
  }

  // ---------------------------------------------------------------------
  // Powers

  lemma MulOne(a: Complex)
    ensures Mul(a, One) == a && Mul(One, a) == a
  {
  }

  /** a*b*(c*d) == a*c*(b*d). */
  lemma MulInterchange(a: Complex, b: Complex, c: Complex, d: Complex)
    ensures Mul(Mul(a, b), Mul(c, d)) == Mul(Mul(a, c), Mul(b, d))
  {
    MulAssociative(a, b, Mul(c, d));
    MulAssociative(b, c, d);
    assert Mul(b, c) == Mul(c, b);
    MulAssociative(c, b, d);
    MulAssociative(a, c, Mul(b, d));
  }

  /** (a*b)^k == a^k * b^k. */
  lemma {:induction false} PowOfProduct(a: Complex, b: Complex, k: nat)
    ensures Pow(Mul(a, b), k) == Mul(Pow(a, k), Pow(b, k))
  {
    if k == 0 {
      assert Pow(a, 0) == One && Pow(b, 0) == One && Pow(Mul(a, b), 0) == One;
      MulOne(One);
    } else {
      PowOfProduct(a, b, k - 1);
      MulInterchange(Pow(a, k - 1), Pow(b, k - 1), a, b);
    }
  }

  /** With w^h == -1, w^(k+h) == -w^k. */
  lemma HalfTurn(w: Complex, h: nat, k: nat)
    requires Pow(w, h) == NegOne
    ensures Pow(w, k + h) == Mul(Pow(w, k), NegOne)
  {
    PowAdd(w, k, h);
  }

  lemma NegSquare(u: Complex)
    ensures Mul(Mul(u, NegOne), Mul(u, NegOne)) == Mul(u, u)
  {
  }

  lemma NegTwist(e: Complex, u: Complex, d: Complex)
    ensures Add(e, Mul(Mul(u, NegOne), d)) == Sub(e, Mul(u, d))
  {
  }

  // ---------------------------------------------------------------------
  // Evaluations

  /** A one-coefficient polynomial is its coefficient. */
  lemma EvalOfOne(c: int -> Complex, o: nat, st: nat, u: Complex)
    ensures Eval(c, o, st, 1, u) == c(o)
  {
    MulZero(u);
  }

  /** c0 + u*(c1 + u*(e + u*d)) == (c0 + u^2*e) + u*(c1 + u^2*d). */
  lemma HornerRegroup(c0: Complex, c1: Complex, e: Complex, d: Complex, u: Complex)
    ensures Add(c0, Mul(u, Add(c1, Mul(u, Add(e, Mul(u, d))))))
         == Add(Add(c0, Mul(Mul(u, u), e)), Mul(u, Add(c1, Mul(Mul(u, u), d))))
  {
    var u2 := Mul(u, u);
    MulDistributesAdd(u, c1, Mul(u, Add(e, Mul(u, d))));
    MulAssociative(u, u, Add(e, Mul(u, d)));
    MulDistributesAdd(u2, e, Mul(u, d));
    MulCommutesScalar(u2, u, d);
    MulDistributesAdd(u, c1, Mul(u2, d));
  }

  /** The Danielson-Lanczos split: the polynomial with 2h coefficients at u is
      the even-indexed one at u^2 plus u times the odd-indexed one at u^2. */
  lemma {:induction false} EvalSplit(c: int -> Complex, o: nat, st: nat, h: nat, u: Complex)
    ensures Eval(c, o, st, 2 * h, u)
         == Add(Eval(c, o, 2 * st, h, Mul(u, u)), Mul(u, Eval(c, o + st, 2 * st, h, Mul(u, u))))
    decreases h
  {
    var u2 := Mul(u, u);
    if h == 0 {
      MulZero(u);
    } else {
      EvalSplit(c, o + 2 * st, st, h - 1, u);
      var e := Eval(c, o + 2 * st, 2 * st, h - 1, u2);
      var d := Eval(c, o + 3 * st, 2 * st, h - 1, u2);
      assert Eval(c, o, st, 2 * h, u) == Add(c(o), Mul(u, Eval(c, o + st, st, 2 * h - 1, u)));
      assert Eval(c, o + st, st, 2 * h - 1, u) == Add(c(o + st), Mul(u, Eval(c, o + 2 * st, st, 2 * (h - 1), u)));
      assert Eval(c, o + st, 2 * st, h, u2) == Add(c(o + st), Mul(u2, d));
      HornerRegroup(c(o), c(o + st), e, d, u);
    }
  }

  /** The Danielson-Lanczos split at -u: the even part is the same and the
      odd part changes sign. */
  lemma EvalSplitNegated(c: int -> Complex, o: nat, st: nat, h: nat, u: Complex)
    ensures Eval(c, o, st, 2 * h, Mul(u, NegOne))
         == Sub(Eval(c, o, 2 * st, h, Mul(u, u)), Mul(u, Eval(c, o + st, 2 * st, h, Mul(u, u))))
  {
    var v := Mul(u, NegOne);
    EvalSplit(c, o, st, h, v);
    NegSquare(u);
    NegTwist(Eval(c, o, 2 * st, h, Mul(u, u)), u, Eval(c, o + st, 2 * st, h, Mul(u, u)));
  }

  // ---------------------------------------------------------------------
  // One butterfly, in values

  /** The sum of a butterfly with twiddle u == w^k: the even and odd halves'
      evaluations at u^2 combine into the whole block's evaluation at u. */
  lemma ButterflySum(c: int -> Complex, o: nat, st: nat, h: nat, w: Complex, k: nat, e: Complex, d: Complex)
    requires e == Eval(c, o, 2 * st, h, Mul(Pow(w, k), Pow(w, k)))
    requires d == Eval(c, o + st, 2 * st, h, Mul(Pow(w, k), Pow(w, k)))
    ensures Add(e, Mul(Pow(w, k), d)) == Eval(c, o, st, 2 * h, Pow(w, k))
  {
    EvalSplit(c, o, st, h, Pow(w, k));
  }

  /** The difference of a butterfly with twiddle w^k, where w^h == -1: the
      whole block's evaluation at w^(k+h). */
  lemma ButterflyDifference(c: int -> Complex, o: nat, st: nat, h: nat, w: Complex, k: nat, e: Complex, d: Complex)
    requires Pow(w, h) == NegOne
    requires e == Eval(c, o, 2 * st, h, Mul(Pow(w, k), Pow(w, k)))
    requires d == Eval(c, o + st, 2 * st, h, Mul(Pow(w, k), Pow(w, k)))
    ensures Sub(e, Mul(Pow(w, k), d)) == Eval(c, o, st, 2 * h, Pow(w, k + h))
  {
    HalfTurn(w, h, k);
    EvalSplitNegated(c, o, st, h, Pow(w, k));
  }

  // ---------------------------------------------------------------------
  // The stages

  /** The bit-reversed offsets of the two halves of block b at level lv - 1:
      blocks 2b and 2b+1 at level lv. */
  lemma BitRevHalves(b: nat, lv: nat)
    requires lv >= 1
    ensures BitRev(2 * b, lv) == BitRev(b, lv - 1)
    ensures BitRev(2 * b + 1, lv) == Pow2(lv - 1) + BitRev(b, lv - 1)
  {
    assert (2 * b) % 2 == 0 && (2 * b) / 2 == b;
    assert (2 * b + 1) % 2 == 1 && (2 * b + 1) / 2 == b;
  }

  /** What offset k of block b holds after s stages on the bit-reversed input:
      frequency k of the transform, with root Root(omega, s), of the 2^s
      coefficients with stride 2^(lgN-s) that start at the reversal of b. */
  ghost function Expected(c: int -> Complex, lgN: nat, omega: seq<Complex>, s: nat, b: nat, k: nat): Complex
    requires s <= lgN && |omega| == lgN
  {
    Eval(c, BitRev(b, lgN - s), Pow2(lgN - s), Pow2(s), Pow(Root(omega, s), k))
  }

  /** Every block of 2^s elements of z holds its expected values: position
      p == b * 2^s + k holds Expected(b, k). */
  ghost predicate AfterStages(c: int -> Complex, lgN: nat, omega: seq<Complex>, s: nat, z: seq<Complex>)
    requires s <= lgN && |omega| == lgN
  {
    forall b: nat, k: nat, p: nat :: k < Pow2(s) && p == b * Pow2(s) + k && p < |z| ==>
      z[p] == Expected(c, lgN, omega, s, b, k)
  }

  /** The root before stage s, raised to k, is the square of the stage's
      twiddle raised to k. */
  lemma SquaredTwiddle(omega: seq<Complex>, s: nat, k: nat)
    requires s < |omega| && ExactTwiddles(omega) && k < Pow2(s)
    ensures Pow(Root(omega, s), k) == Mul(Pow(omega[s], k), Pow(omega[s], k))
  {
    if s == 0 {
      assert k == 0;
      assert Pow(One, 0) == One && Pow(omega[s], 0) == One;
      MulOne(One);
    } else {
      assert SquareAt(omega, s - 1);
      PowOfProduct(omega[s], omega[s], k);
    }
  }

  /** The expected values of the two halves of block b after s stages, as the
      even and odd parts of the block's polynomial at the squared twiddle. */
  lemma ExpectedHalves(c: int -> Complex, lgN: nat, omega: seq<Complex>, s: nat, b: nat, k: nat)
    requires |omega| == lgN && s < lgN
    requires Pow(Root(omega, s), k) == Mul(Pow(omega[s], k), Pow(omega[s], k))
    ensures var st := Pow2(lgN - s - 1);
            var u := Pow(omega[s], k);
            Expected(c, lgN, omega, s, 2 * b, k) == Eval(c, BitRev(b, lgN - s - 1), 2 * st, Pow2(s), Mul(u, u))
            && Expected(c, lgN, omega, s, 2 * b + 1, k) == Eval(c, BitRev(b, lgN - s - 1) + st, 2 * st, Pow2(s), Mul(u, u))
  {
    var lv := lgN - s;
    assert Pow2(lv) == 2 * Pow2(lv - 1);
    BitRevHalves(b, lv);
  }

  /** The expected value after s + 1 stages, as the block's whole polynomial. */
  lemma ExpectedWhole(c: int -> Complex, lgN: nat, omega: seq<Complex>, s: nat, b: nat, kk: nat)
    requires |omega| == lgN && s < lgN
    ensures Expected(c, lgN, omega, s + 1, b, kk)
         == Eval(c, BitRev(b, lgN - s - 1), Pow2(lgN - s - 1), 2 * Pow2(s), Pow(omega[s], kk))
  {
    assert Pow2(s + 1) == 2 * Pow2(s);
  }

  /** The sum of the pair of offset k of block b in stage s turns the expected
      values of the halves after s stages into the expected value of offset k
      after s + 1 stages. */
  lemma PairSum(c: int -> Complex, lgN: nat, omega: seq<Complex>, s: nat, b: nat, k: nat)
    requires |omega| == lgN && s < lgN
    requires Pow(Root(omega, s), k) == Mul(Pow(omega[s], k), Pow(omega[s], k))
    ensures Add(Expected(c, lgN, omega, s, 2 * b, k), Mul(Pow(omega[s], k), Expected(c, lgN, omega, s, 2 * b + 1, k)))
         == Expected(c, lgN, omega, s + 1, b, k)
  {
    var u := Pow(omega[s], k);
    var o := BitRev(b, lgN - s - 1);
    var st := Pow2(lgN - s - 1);
    var e := Expected(c, lgN, omega, s, 2 * b, k);
    var d := Expected(c, lgN, omega, s, 2 * b + 1, k);
    assert e == Eval(c, o, 2 * st, Pow2(s), Mul(u, u)) && d == Eval(c, o + st, 2 * st, Pow2(s), Mul(u, u)) by {
      ExpectedHalves(c, lgN, omega, s, b, k);
    }
    assert Add(e, Mul(u, d)) == Eval(c, o, st, 2 * Pow2(s), u) by {
      ButterflySum(c, o, st, Pow2(s), omega[s], k, e, d);
    }
    assert Expected(c, lgN, omega, s + 1, b, k) == Eval(c, o, st, 2 * Pow2(s), u) by {
      ExpectedWhole(c, lgN, omega, s, b, k);
    }
  }

  /** The difference of the same pair is the expected value of offset
      k + 2^s after s + 1 stages. */
  lemma PairDifference(c: int -> Complex, lgN: nat, omega: seq<Complex>, s: nat, b: nat, k: nat)
    requires |omega| == lgN && s < lgN && HalfTurnAt(omega, s)
    requires Pow(Root(omega, s), k) == Mul(Pow(omega[s], k), Pow(omega[s], k))
    ensures Sub(Expected(c, lgN, omega, s, 2 * b, k), Mul(Pow(omega[s], k), Expected(c, lgN, omega, s, 2 * b + 1, k)))
         == Expected(c, lgN, omega, s + 1, b, k + Pow2(s))
  {
    var u := Pow(omega[s], k);
    var o := BitRev(b, lgN - s - 1);
    var st := Pow2(lgN - s - 1);
    var e := Expected(c, lgN, omega, s, 2 * b, k);
    var d := Expected(c, lgN, omega, s, 2 * b + 1, k);
    ExpectedHalves(c, lgN, omega, s, b, k);
    assert e == Eval(c, o, 2 * st, Pow2(s), Mul(u, u));
    assert d == Eval(c, o + st, 2 * st, Pow2(s), Mul(u, u));
    ButterflyDifference(c, o, st, Pow2(s), omega[s], k, e, d);
    ExpectedWhole(c, lgN, omega, s, b, k + Pow2(s));
  }

  /** PairSum and PairDifference under an exact twiddle table. */
  lemma PairSumExact(c: int -> Complex, lgN: nat, omega: seq<Complex>, s: nat, b: nat, k: nat)
    requires |omega| == lgN && s < lgN && ExactTwiddles(omega) && k < Pow2(s)
    ensures Add(Expected(c, lgN, omega, s, 2 * b, k), Mul(Pow(omega[s], k), Expected(c, lgN, omega, s, 2 * b + 1, k)))
         == Expected(c, lgN, omega, s + 1, b, k)
  {
    SquaredTwiddle(omega, s, k);
    PairSum(c, lgN, omega, s, b, k);
  }

  lemma PairDifferenceExact(c: int -> Complex, lgN: nat, omega: seq<Complex>, s: nat, b: nat, k: nat)
    requires |omega| == lgN && s < lgN && ExactTwiddles(omega) && k < Pow2(s)
    ensures Sub(Expected(c, lgN, omega, s, 2 * b, k), Mul(Pow(omega[s], k), Expected(c, lgN, omega, s, 2 * b + 1, k)))
         == Expected(c, lgN, omega, s + 1, b, k + Pow2(s))
  {
    SquaredTwiddle(omega, s, k);
    assert HalfTurnAt(omega, s);
    PairDifference(c, lgN, omega, s, b, k);
  }

  /** Block b of 2h elements is blocks 2b and 2b + 1 of h elements. */
  lemma BlockHalves(b: nat, h: nat)
    ensures (2 * b) * h == b * (2 * h) && (2 * b + 1) * h == b * (2 * h) + h
  {
  }

  /** Position p == b * 2h + kk of a buffer made of blocks of 2h elements
      lies at offset kk of its block, which ends inside the buffer. */
  lemma PairIndices(n: nat, h: nat, b: nat, kk: nat, p: nat)
    requires h >= 1 && n % (2 * h) == 0 && kk < 2 * h && p == b * (2 * h) + kk && p < n
    ensures p % (2 * h) == kk && p - kk + 2 * h <= n
  {
    OffsetInBlock(b, 2 * h, kk);
    BlockBounds(n, 2 * h, p);
  }

  /** The butterfly at offset kk < h of its block: the sum. */
  lemma ButterflyAtLower(z: seq<Complex>, h: nat, w: Complex, b: nat, kk: nat, p: nat)
    requires h >= 1 && |z| % (2 * h) == 0 && kk < h && p == b * (2 * h) + kk && p < |z|
    ensures p + h < |z|
    ensures ButterflyAt(z, h, w, p) == Add(z[p], Mul(Pow(w, kk), z[p + h]))
  {
    PairIndices(|z|, h, b, kk, p);
  }

  /** The butterfly at offset kk >= h of its block: the difference. */
  lemma ButterflyAtUpper(z: seq<Complex>, h: nat, w: Complex, b: nat, kk: nat, p: nat)
    requires h >= 1 && |z| % (2 * h) == 0 && h <= kk < 2 * h && p == b * (2 * h) + kk && p < |z|
    ensures p >= h
    ensures ButterflyAt(z, h, w, p) == Sub(z[p - h], Mul(Pow(w, kk - h), z[p]))
  {
    PairIndices(|z|, h, b, kk, p);
  }

  /** One instance of AfterStages. */
  lemma AfterStagesAt(c: int -> Complex, lgN: nat, omega: seq<Complex>, s: nat, z: seq<Complex>, b: nat, k: nat, p: nat)
    requires s <= lgN && |omega| == lgN && AfterStages(c, lgN, omega, s, z)
    requires k < Pow2(s) && p == b * Pow2(s) + k && p < |z|
    ensures z[p] == Expected(c, lgN, omega, s, b, k)
  {
  }

  /** The two halves of the pair at offset k of block b of stage s. */
  lemma AfterStagesPair(c: int -> Complex, lgN: nat, omega: seq<Complex>, s: nat, z: seq<Complex>, b: nat, k: nat, p: nat)
    requires s <= lgN && |omega| == lgN && AfterStages(c, lgN, omega, s, z)
    requires k < Pow2(s) && p == b * (2 * Pow2(s)) + k && p + Pow2(s) < |z|
    ensures z[p] == Expected(c, lgN, omega, s, 2 * b, k)
    ensures z[p + Pow2(s)] == Expected(c, lgN, omega, s, 2 * b + 1, k)
  {
    BlockHalves(b, Pow2(s));
    AfterStagesAt(c, lgN, omega, s, z, 2 * b, k, p);
    AfterStagesAt(c, lgN, omega, s, z, 2 * b + 1, k, p + Pow2(s));
  }

  /** Stage s at offset k < 2^s of block b: the sum of the pair. */
  lemma StageLower(c: int -> Complex, lgN: nat, omega: seq<Complex>, s: nat, z: seq<Complex>, b: nat, k: nat, p: nat)
    requires |omega| == lgN && s < lgN && ExactTwiddles(omega)
    requires AfterStages(c, lgN, omega, s, z)
    requires |z| % (2 * Pow2(s)) == 0 && k < Pow2(s) && p == b * (2 * Pow2(s)) + k && p < |z|
    ensures ButterflyAt(z, Pow2(s), omega[s], p) == Expected(c, lgN, omega, s + 1, b, k)
  {
    ButterflyAtLower(z, Pow2(s), omega[s], b, k, p);
    AfterStagesPair(c, lgN, omega, s, z, b, k, p);
    PairSumExact(c, lgN, omega, s, b, k);
  }

  /** Stage s at offset kk >= 2^s of block b: the difference of the pair. */
  lemma StageUpper(c: int -> Complex, lgN: nat, omega: seq<Complex>, s: nat, z: seq<Complex>, b: nat, kk: nat, p: nat)
    requires |omega| == lgN && s < lgN && ExactTwiddles(omega)
    requires AfterStages(c, lgN, omega, s, z)
    requires |z| % (2 * Pow2(s)) == 0 && Pow2(s) <= kk < 2 * Pow2(s) && p == b * (2 * Pow2(s)) + kk && p < |z|
    ensures ButterflyAt(z, Pow2(s), omega[s], p) == Expected(c, lgN, omega, s + 1, b, kk)
  {
    var k := kk - Pow2(s);
    ButterflyAtUpper(z, Pow2(s), omega[s], b, kk, p);
    var q := p - Pow2(s);
    AfterStagesPair(c, lgN, omega, s, z, b, k, q);
    assert q + Pow2(s) == p && k + Pow2(s) == kk;
    PairDifferenceExact(c, lgN, omega, s, b, k);
  }

  /** b * m2 == b * (2 * m) when m2 == 2 * m. */
  lemma ScaleDouble(b: nat, m: nat, m2: nat)
    requires m2 == 2 * m
    ensures b * m2 == b * (2 * m)
  {
  }

  /** One stage with an exact twiddle turns a buffer that holds the expected
      values after s stages into one that holds those after s + 1 stages. */
  lemma StageStep(c: int -> Complex, lgN: nat, omega: seq<Complex>, s: nat, z: seq<Complex>)
    requires |omega| == lgN && s < lgN && ExactTwiddles(omega)
    requires AfterStages(c, lgN, omega, s, z)
    requires |z| % (2 * Pow2(s)) == 0
    ensures AfterStages(c, lgN, omega, s + 1, Stage(z, Pow2(s), omega[s]))
  {
    var h := Pow2(s);
    var t := s + 1;
    assert Pow2(t) == 2 * h;
    forall b: nat, kk: nat, p: nat | kk < Pow2(t) && p == b * Pow2(t) + kk && p < |z|
      ensures Stage(z, h, omega[s])[p] == Expected(c, lgN, omega, t, b, kk)
    {
      ScaleDouble(b, h, Pow2(t));
      if kk < h {
        StageLower(c, lgN, omega, s, z, b, kk, p);
      } else {
        StageUpper(c, lgN, omega, s, z, b, kk, p);
      }
    }
  }

  /** After s stages on the bit-reversed input every block holds its expected
      values. */
  lemma {:induction false} StagesComputeEvals(x: seq<Complex>, lgN: nat, omega: seq<Complex>, s: nat)
    requires |x| == Pow2(lgN) && |omega| == lgN && s <= lgN
    requires ExactTwiddles(omega)
    ensures |x| % Pow2(s) == 0
    ensures AfterStages(Padded(x), lgN, omega, s, Stages(BitReversed(x, lgN), s, omega))
  {
    Pow2Divides(s, lgN);
    var c := Padded(x);
    var y := BitReversed(x, lgN);
    if s == 0 {
      forall b: nat, k: nat, p: nat | k < Pow2(0) && p == b * Pow2(0) + k && p < |y|
        ensures y[p] == Expected(c, lgN, omega, 0, b, k)
      {
        assert Pow2(0) == 1 && k == 0;
        assert p == b;
        assert Pow(One, 0) == One;
        EvalOfOne(c, BitRev(b, lgN), Pow2(lgN), One);
      }
    } else {
      StagesComputeEvals(x, lgN, omega, s - 1);
      var z := Stages(y, s - 1, omega);
      MultipleOfDouble(|z|, Pow2(s - 1));
      StageStep(c, lgN, omega, s - 1, z);
    }
  }

  /** With an exact twiddle table the unscaled transform is the discrete
      Fourier transform with root omega[lgN-1], and the forward transform is
      that divided by n. */
  lemma TransformIsDft(x: seq<Complex>, lgN: nat, omega: seq<Complex>)
    requires Sized(|x|, lgN) && |x| >= 1 && |omega| == lgN
    requires ExactTwiddles(omega)
    ensures Transformed(x, lgN, omega, true) == DftOf(x, Root(omega, lgN))
    ensures Transformed(x, lgN, omega, false) == Normalized(DftOf(x, Root(omega, lgN)))
  {
    StagesComputeEvals(x, lgN, omega, lgN);
    var z := Stages(BitReversed(x, lgN), lgN, omega);
    var c := Padded(x);
    assert BitRev(0, 0) == 0 && Pow2(0) == 1;
    forall p | 0 <= p < |x|
      ensures z[p] == DftOf(x, Root(omega, lgN))[p]
    {
      AfterStagesAt(c, lgN, omega, lgN, z, 0, p, p);
    }
    assert z == DftOf(x, Root(omega, lgN));
  }
}
