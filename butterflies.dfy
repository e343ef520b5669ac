/**
  The butterfly network of FFT::transform as functions on sequences: one
  stage, the first s stages, the forward normalisation, and the whole
  transform (bit reversal, lgN stages, division by n in the forward
  direction only). The twiddle table is an arbitrary sequence of complex
  values, so every fact proved here holds whatever the twiddles are.
 */
module Butterflies {
  import opened PowerOfTwo
  import opened ComplexNumbers
  import opened BitReversal

  /** The value index p holds after one stage whose blocks have 2h elements and
      whose twiddle is w. An index in the lower half of its block (offset
      j < h) receives u + t, one in the upper half receives u - t, where u is
      the old lower element and t = w^j times the old upper element. */
  function ButterflyAt(a: seq<Complex>, h: nat, w: Complex, p: nat): Complex
    requires h >= 1 && |a| % (2 * h) == 0 && p < |a|
  {
    BlockBounds(|a|, 2 * h, p);
    var j := p % (2 * h);
    if j < h then Add(a[p], Mul(Pow(w, j), a[p + h]))
    else Sub(a[p - h], Mul(Pow(w, j - h), a[p]))
  }

  /** One stage over the whole buffer. */
  function Stage(a: seq<Complex>, h: nat, w: Complex): (r: seq<Complex>)
    requires h >= 1 && |a| % (2 * h) == 0
    ensures |r| == |a|
  {
    seq(|a|, p requires 0 <= p < |a| => ButterflyAt(a, h, w, p))
  }

  /** Stages 0 .. s-1 in order; stage t has blocks of 2^(t+1) elements and
      twiddle omega[t]. */
  function Stages(a: seq<Complex>, s: nat, omega: seq<Complex>): (r: seq<Complex>)
    requires s <= |omega| && |a| % Pow2(s) == 0
    ensures |r| == |a|
  {
    if s == 0 then a
    else
      MultipleOfDouble(|a|, Pow2(s - 1));
      Stage(Stages(a, s - 1, omega), Pow2(s - 1), omega[s - 1])
  }

  /** The buffer after the first j pairs of the block that starts at k: pair
      j' < j has set element k+j' to u + t and element k+j'+h to u - t, with
      u the lower and t = w^j' times the upper element; nothing else moved. */
  function AfterButterflies(a: seq<Complex>, k: nat, h: nat, w: Complex, j: nat): (r: seq<Complex>)
    requires j <= h && k + 2 * h <= |a|
    ensures |r| == |a|
  {
    seq(|a|, p requires 0 <= p < |a| =>
      if k <= p < k + j then Add(a[p], Mul(Pow(w, p - k), a[p + h]))
      else if k + h <= p < k + h + j then Sub(a[p - h], Mul(Pow(w, p - k - h), a[p]))
      else a[p])
  }

  /** Pair j of a block reads two elements no earlier pair has written, and
      writing their sum and difference gives the buffer after j + 1 pairs. */
  lemma AfterButterfliesStep(a: seq<Complex>, c: seq<Complex>, k: nat, h: nat, w: Complex, j: nat,
                             u: Complex, t: Complex)
    requires j < h && k + 2 * h <= |a|
    requires c == AfterButterflies(a, k, h, w, j)
    requires u == c[k + j] && t == Mul(Pow(w, j), c[k + j + h])
    ensures u == a[k + j] && c[k + j + h] == a[k + j + h]
    ensures c[k + j := Add(u, t)][k + j + h := Sub(u, t)] == AfterButterflies(a, k, h, w, j + 1)
  {
  }

  /** All h pairs of the block starting at k == q*2h give the block's part of
      one stage, even when only the block agrees with the stage's input. */
  lemma BlockIsStage(a: seq<Complex>, b: seq<Complex>, q: nat, h: nat, w: Complex, p: nat)
    requires h >= 1 && |a| % (2 * h) == 0 && |b| == |a|
    requires q * (2 * h) + 2 * h <= |a|
    requires q * (2 * h) <= p < q * (2 * h) + 2 * h
    requires forall i :: q * (2 * h) <= i < q * (2 * h) + 2 * h ==> b[i] == a[i]
    ensures AfterButterflies(b, q * (2 * h), h, w, h)[p] == ButterflyAt(a, h, w, p)
  {
    var k := q * (2 * h);
    OffsetInBlock(q, 2 * h, p - k);
    assert p % (2 * h) == p - k;
  }

  /** Every element divided by the buffer length n. */
  function Normalized(y: seq<Complex>): (r: seq<Complex>)
    ensures |r| == |y|
  {
    seq(|y|, i requires 0 <= i < |y| => DivReal(y[i], |y| as real))
  }

  /** What FFT::transform returns for the input x: the bit-reversed copy of x
      run through all lgN stages, then divided by n in the forward direction
      and left unscaled in the inverse direction. */
  function Transformed(x: seq<Complex>, lgN: nat, omega: seq<Complex>, inverse: bool): (r: seq<Complex>)
    requires Sized(|x|, lgN) && |omega| == lgN
    ensures |r| == |x|
  {
    SizedDivides(|x|, lgN);
    var y := Stages(BitReversed(x, lgN), lgN, omega);
    if inverse then y else Normalized(y)
  }

  /** n copies of c. */
  function Constant(n: nat, c: Complex): (r: seq<Complex>)
    ensures |r| == n
  {
    seq(n, _ => c)
  }

  /** The unit impulse of length n: 1 at index 0, 0 elsewhere. */
  function Impulse(n: nat): (r: seq<Complex>)
    ensures |r| == n
  {
    seq(n, i => if i == 0 then One else Zero)
  }

  function AddAll(x: seq<Complex>, y: seq<Complex>): (r: seq<Complex>)
    requires |x| == |y|
    ensures |r| == |x|
  {
    seq(|x|, i requires 0 <= i < |x| => Add(x[i], y[i]))
  }

  function MulAll(c: Complex, x: seq<Complex>): (r: seq<Complex>)
    ensures |r| == |x|
  {
    seq(|x|, i requires 0 <= i < |x| => Mul(c, x[i]))
  }

  // ---------------------------------------------------------------------
  // The iteration space of one stage

  /** In a stage with blocks of m = 2h elements over n elements (n a multiple
      of m), the butterfly (k, j) of block start k and offset j < h touches
      k + j and k + j + h. Both are inside the buffer, no lower index is ever
      an upper one, and two butterflies that share an index are the same. */
  lemma ButterflyPairsDisjoint(n: nat, h: nat, k: nat, j: nat, k': nat, j': nat)
    requires h >= 1 && n % (2 * h) == 0
    requires k < n && k % (2 * h) == 0 && j < h
    requires k' < n && k' % (2 * h) == 0 && j' < h
    ensures k + j + h < n
    ensures k + j != k' + j' + h
    ensures k + j == k' + j' ==> k == k' && j == j'
    ensures k + j + h == k' + j' + h ==> k == k' && j == j'
  {
    var m := 2 * h;
    BlockBounds(n, m, k);
    var q, q' := k / m, k' / m;
    assert k == q * m && k' == q' * m;
    if k + j == k' + j' + h || k + j == k' + j' {
      var r := k + j;
      var r' := if k + j == k' + j' then j' else j' + h;
      OffsetInBlock(q, m, j);
      OffsetInBlock(q', m, r');
    }
  }

  /** Every index of the buffer is touched by the butterfly of its own block:
      it is the lower or the upper index of the pair (p - p % m, p % m mod h). */
  lemma ButterflyPairsCover(n: nat, h: nat, p: nat)
    requires h >= 1 && n % (2 * h) == 0 && p < n
    ensures var k := p - p % (2 * h);
            var j := if p % (2 * h) < h then p % (2 * h) else p % (2 * h) - h;
            k % (2 * h) == 0 && k < n && j < h && (p == k + j || p == k + j + h)
  {
    var m := 2 * h;
    BlockBounds(n, m, p);
    OffsetInBlock(p / m, m, 0);
    assert p - p % m == (p / m) * m;
  }

  // ---------------------------------------------------------------------
  // Twiddle powers

  /** The power built by repeated multiplication is the true power:
      w^(i+j) == w^i * w^j. */
  lemma {:induction false} PowAdd(w: Complex, i: nat, j: nat)
    ensures Pow(w, i + j) == Mul(Pow(w, i), Pow(w, j))
  {
    if j > 0 {
      PowAdd(w, i, j - 1);
      MulAssociative(Pow(w, i), Pow(w, j - 1), w);
    }
  }

  // ---------------------------------------------------------------------
  // Zero and impulse inputs

  lemma ButterflyOfZero(a: seq<Complex>, h: nat, w: Complex, p: nat)
    requires h >= 1 && |a| % (2 * h) == 0 && p < |a|
    requires forall i :: 0 <= i < |a| ==> a[i] == Zero
    ensures ButterflyAt(a, h, w, p) == Zero
  {
    BlockBounds(|a|, 2 * h, p);
    var j := p % (2 * h);
    if j < h {
      MulZero(Pow(w, j));
    } else {
      MulZero(Pow(w, j - h));
    }
  }

  /** A stage maps the all-zero buffer to itself. */
  lemma StageOfZero(a: seq<Complex>, h: nat, w: Complex)
    requires h >= 1 && |a| % (2 * h) == 0 && a == Constant(|a|, Zero)
    ensures Stage(a, h, w) == a
  {
    forall p | 0 <= p < |a|
      ensures Stage(a, h, w)[p] == a[p]
    {
      ButterflyOfZero(a, h, w, p);
    }
  }

  lemma {:induction false} StagesOfZero(a: seq<Complex>, s: nat, omega: seq<Complex>)
    requires s <= |omega| && |a| % Pow2(s) == 0 && a == Constant(|a|, Zero)
    ensures Stages(a, s, omega) == a
  {
    if s > 0 {
      MultipleOfDouble(|a|, Pow2(s - 1));
      StagesOfZero(a, s - 1, omega);
      StageOfZero(a, Pow2(s - 1), omega[s - 1]);
    }
  }

  /** The all-zero input transforms to all zeros, in both directions and for
      every twiddle table. */
  lemma TransformOfZero(n: nat, lgN: nat, omega: seq<Complex>, inverse: bool)
    requires Sized(n, lgN) && |omega| == lgN
    ensures Transformed(Constant(n, Zero), lgN, omega, inverse) == Constant(n, Zero)
  {
    var x := Constant(n, Zero);
    assert BitReversed(x, lgN) == x;
    SizedDivides(n, lgN);
    StagesOfZero(x, lgN, omega);
    NormalizedOfZero(n);
  }

  lemma NormalizedOfZero(n: nat)
    ensures Normalized(Constant(n, Zero)) == Constant(n, Zero)
  {
  }

  /** The first t elements are 1, the rest 0. */
  function Ones(n: nat, t: nat): (r: seq<Complex>)
    ensures |r| == n
  {
    seq(n, i => if i < t then One else Zero)
  }

  /** A stage with half-block h turns h leading ones into 2h leading ones,
      whatever its twiddle. */
  lemma StageOfOnes(n: nat, h: nat, w: Complex)
    requires h >= 1 && n % (2 * h) == 0
    ensures Stage(Ones(n, h), h, w) == Ones(n, 2 * h)
  {
    forall p | 0 <= p < n
      ensures Stage(Ones(n, h), h, w)[p] == Ones(n, 2 * h)[p]
    {
      ButterflyOfOnes(n, h, w, p);
    }
  }

  lemma ButterflyOfOnes(n: nat, h: nat, w: Complex, p: nat)
    requires h >= 1 && n % (2 * h) == 0 && p < n
    ensures ButterflyAt(Ones(n, h), h, w, p) == if p < 2 * h then One else Zero
  {
    BlockBounds(n, 2 * h, p);
    if p < 2 * h {
      OffsetInBlock(0, 2 * h, p);
    }
    var j := p % (2 * h);
    if j < h {
      MulZero(Pow(w, j));
    } else {
      MulZero(Pow(w, j - h));
    }
  }

  lemma {:induction false} StagesOfImpulse(n: nat, s: nat, lgN: nat, omega: seq<Complex>)
    requires s <= lgN && n == Pow2(lgN) && |omega| >= s
    ensures n % Pow2(s) == 0 && Stages(Impulse(n), s, omega) == Ones(n, Pow2(s))
  {
    Pow2Divides(s, lgN);
    if s == 0 {
      assert Impulse(n) == Ones(n, 1);
    } else {
      StagesOfImpulse(n, s - 1, lgN, omega);
      MultipleOfDouble(n, Pow2(s - 1));
      StageOfOnes(n, Pow2(s - 1), omega[s - 1]);
    }
  }

  lemma BitRevOfZero(b: nat)
    ensures BitRev(0, b) == 0
  {
  }

  /** An impulse at index 0 transforms to the constant 1/n in the forward
      direction and to the constant 1 in the inverse direction, whatever the
      twiddle table holds. */
  lemma TransformOfImpulse(n: nat, lgN: nat, omega: seq<Complex>, inverse: bool)
    requires Sized(n, lgN) && n >= 1 && |omega| == lgN
    ensures Transformed(Impulse(n), lgN, omega, inverse)
         == if inverse then Constant(n, One) else Constant(n, DivReal(One, n as real))
  {
    var x := Impulse(n);
    forall k | 0 <= k < n
      ensures BitReversed(x, lgN)[k] == x[k]
    {
      BitRevOfZero(lgN);
      if BitRev(k, lgN) == 0 {
        BitRevInjective(k, 0, lgN);
      }
    }
    assert BitReversed(x, lgN) == x;
    StagesOfImpulse(n, lgN, lgN, omega);
    assert Ones(n, Pow2(lgN)) == Constant(n, One);
  }

  // ---------------------------------------------------------------------
  // Linearity

  lemma StageAdditive(a: seq<Complex>, b: seq<Complex>, h: nat, w: Complex)
    requires h >= 1 && |a| == |b| && |a| % (2 * h) == 0
    ensures Stage(AddAll(a, b), h, w) == AddAll(Stage(a, h, w), Stage(b, h, w))
  {
    forall p | 0 <= p < |a|
      ensures Stage(AddAll(a, b), h, w)[p] == AddAll(Stage(a, h, w), Stage(b, h, w))[p]
    {
      ButterflyAdditive(a, b, h, w, p);
    }
  }

  lemma ButterflyAdditive(a: seq<Complex>, b: seq<Complex>, h: nat, w: Complex, p: nat)
    requires h >= 1 && |a| == |b| && |a| % (2 * h) == 0 && p < |a|
    ensures ButterflyAt(AddAll(a, b), h, w, p) == Add(ButterflyAt(a, h, w, p), ButterflyAt(b, h, w, p))
  {
    BlockBounds(|a|, 2 * h, p);
    var j := p % (2 * h);
    if j < h {
      MulDistributesAdd(Pow(w, j), a[p + h], b[p + h]);
    } else {
      MulDistributesAdd(Pow(w, j - h), a[p], b[p]);
    }
  }

  lemma {:induction false} StagesAdditive(a: seq<Complex>, b: seq<Complex>, s: nat, omega: seq<Complex>)
    requires s <= |omega| && |a| == |b| && |a| % Pow2(s) == 0
    ensures Stages(AddAll(a, b), s, omega) == AddAll(Stages(a, s, omega), Stages(b, s, omega))
  {
    if s > 0 {
      MultipleOfDouble(|a|, Pow2(s - 1));
      StagesAdditive(a, b, s - 1, omega);
      StageAdditive(Stages(a, s - 1, omega), Stages(b, s - 1, omega), Pow2(s - 1), omega[s - 1]);
    }
  }

  lemma StageHomogeneous(c: Complex, a: seq<Complex>, h: nat, w: Complex)
    requires h >= 1 && |a| % (2 * h) == 0
    ensures Stage(MulAll(c, a), h, w) == MulAll(c, Stage(a, h, w))
  {
    forall p | 0 <= p < |a|
      ensures Stage(MulAll(c, a), h, w)[p] == MulAll(c, Stage(a, h, w))[p]
    {
      ButterflyHomogeneous(c, a, h, w, p);
    }
  }

  lemma ButterflyHomogeneous(c: Complex, a: seq<Complex>, h: nat, w: Complex, p: nat)
    requires h >= 1 && |a| % (2 * h) == 0 && p < |a|
    ensures ButterflyAt(MulAll(c, a), h, w, p) == Mul(c, ButterflyAt(a, h, w, p))
  {
    BlockBounds(|a|, 2 * h, p);
    var j := p % (2 * h);
    if j < h {
      MulCommutesScalar(Pow(w, j), c, a[p + h]);
    } else {
      MulCommutesScalar(Pow(w, j - h), c, a[p]);
    }
  }

  lemma {:induction false} StagesHomogeneous(c: Complex, a: seq<Complex>, s: nat, omega: seq<Complex>)
    requires s <= |omega| && |a| % Pow2(s) == 0
    ensures Stages(MulAll(c, a), s, omega) == MulAll(c, Stages(a, s, omega))
  {
    if s > 0 {
      MultipleOfDouble(|a|, Pow2(s - 1));
      StagesHomogeneous(c, a, s - 1, omega);
      StageHomogeneous(c, Stages(a, s - 1, omega), Pow2(s - 1), omega[s - 1]);
    }
  }

  lemma BitReversedAdditive(x: seq<Complex>, y: seq<Complex>, lgN: nat)
    requires Sized(|x|, lgN) && |y| == |x|
    ensures BitReversed(AddAll(x, y), lgN) == AddAll(BitReversed(x, lgN), BitReversed(y, lgN))
  {
  }

  lemma BitReversedHomogeneous(c: Complex, x: seq<Complex>, lgN: nat)
    requires Sized(|x|, lgN)
    ensures BitReversed(MulAll(c, x), lgN) == MulAll(c, BitReversed(x, lgN))
  {
  }

  lemma NormalizedAdditive(x: seq<Complex>, y: seq<Complex>)
    requires |y| == |x|
    ensures Normalized(AddAll(x, y)) == AddAll(Normalized(x), Normalized(y))
  {
    forall i | 0 <= i < |x|
      ensures Normalized(AddAll(x, y))[i] == AddAll(Normalized(x), Normalized(y))[i]
    {
      DivRealAdd(x[i], y[i], |x| as real);
    }
  }

  lemma NormalizedHomogeneous(c: Complex, x: seq<Complex>)
    ensures Normalized(MulAll(c, x)) == MulAll(c, Normalized(x))
  {
    forall i | 0 <= i < |x|
      ensures Normalized(MulAll(c, x))[i] == MulAll(c, Normalized(x))[i]
    {
      DivRealMul(c, x[i], |x| as real);
    }
  }

  /** The transform is additive, for every twiddle table and both directions:
      T(x + y) == T(x) + T(y). */
  lemma TransformAdditive(x: seq<Complex>, y: seq<Complex>, lgN: nat, omega: seq<Complex>, inverse: bool)
    requires Sized(|x|, lgN) && |y| == |x| && |omega| == lgN
    ensures Transformed(AddAll(x, y), lgN, omega, inverse)
         == AddAll(Transformed(x, lgN, omega, inverse), Transformed(y, lgN, omega, inverse))
  {
    SizedDivides(|x|, lgN);
    BitReversedAdditive(x, y, lgN);
    StagesAdditive(BitReversed(x, lgN), BitReversed(y, lgN), lgN, omega);
    NormalizedAdditive(Stages(BitReversed(x, lgN), lgN, omega), Stages(BitReversed(y, lgN), lgN, omega));
  }

  /** The transform commutes with multiplication by a constant:
      T(c * x) == c * T(x). */
  lemma TransformHomogeneous(c: Complex, x: seq<Complex>, lgN: nat, omega: seq<Complex>, inverse: bool)
    requires Sized(|x|, lgN) && |omega| == lgN
    ensures Transformed(MulAll(c, x), lgN, omega, inverse) == MulAll(c, Transformed(x, lgN, omega, inverse))
  {
    SizedDivides(|x|, lgN);
    BitReversedHomogeneous(c, x, lgN);
    StagesHomogeneous(c, BitReversed(x, lgN), lgN, omega);
    NormalizedHomogeneous(c, Stages(BitReversed(x, lgN), lgN, omega));
  }
}
