/**
  The CPU reference engine, class FFT: construction (stage count and twiddle
  table), bitReverseCopy, and transform, which runs the butterfly network in
  place over the member buffer `result` and divides by n in the forward
  direction only.
 */
module Engine {
  import opened PowerOfTwo
  import opened ComplexNumbers
  import opened BitReversal
  import opened Butterflies

  /** The source's approximation of pi (`#define PI 3.14159265`). */
  const Pi: real := 3.14159265

  /** The failure of the constructor's evenness assertion. */
  datatype Error = InvalidSize

  datatype Result<T> = Ok(value: T) | Err(error: Error)

  /** The exponent i*theta of the twiddle of a stage with blocks of m elements:
      theta = 2*PI/m in the inverse direction and -2*PI/m in the forward one. */
  function Exponent(inverse: bool, m: nat): real
    requires m > 0
  {
    if inverse then 2.0 * Pi / (m as real) else -2.0 * Pi / (m as real)
  }

  /** The table the constructor builds, one entry per stage s, with
      m = 2^(s+1); `cis` stands for the library's exp(i*theta). */
  function TwiddleTable(lgN: nat, inverse: bool, cis: real -> Complex): (t: seq<Complex>)
    ensures |t| == lgN
  {
    seq(lgN, s requires 0 <= s < lgN => cis(Exponent(inverse, Pow2(s + 1))))
  }

  /** The inverse direction turns the other way from the forward one, with a
      positive angle, and each stage's angle is half the previous stage's. */
  lemma ExponentSigns(m: nat)
    requires m > 0
    ensures Exponent(true, m) > 0.0 && Exponent(false, m) < 0.0
    ensures Exponent(false, m) == -Exponent(true, m)
    ensures forall inverse :: 2.0 * Exponent(inverse, 2 * m) == Exponent(inverse, m)
  {
    var M := m as real;
    assert (2 * m) as real == 2.0 * M;
    forall inverse
      ensures 2.0 * Exponent(inverse, 2 * m) == Exponent(inverse, m)
    {
      var c := if inverse then 2.0 * Pi else -2.0 * Pi;
      assert Exponent(inverse, 2 * m) == c / (2.0 * M);
      assert Exponent(inverse, m) == c / M;
      assert 2.0 * (c / (2.0 * M)) == c / M;
    }
  }

  /** The halving loop of the constructor: lgN counts the halvings of n down to
      1, and the assertion that every intermediate value above 1 is even fails
      (Err) exactly when n > 1 is not a power of two. Sizes 0 and 1 (and
      negative ones) never enter the loop and give lgN == 0. */
  method CountStages(n: int) returns (r: Result<nat>)
    ensures r.Ok? <==> n <= 1 || IsPow2(n)
    ensures r.Ok? ==> if n <= 1 then r.value == 0 else Pow2(r.value) == n
  {
    var i := n;
    var lgN: nat := 0;
    while i > 1
      invariant n <= 1 ==> i == n && lgN == 0
      invariant n > 1 ==> i >= 1 && n == i * Pow2(lgN)
    {
      lgN := lgN + 1;
      if i % 2 != 0 {
        // assert((i & 1) == 0) fails
        forall k: nat
          ensures Pow2(k) != n
        {
          OddFactorNotPow2(i, lgN - 1, k);
        }
        return Err(InvalidSize);
      }
      assert i * Pow2(lgN - 1) == (i / 2) * Pow2(lgN);
      i := i / 2;
    }
    return Ok(lgN);
  }

  /** Size 6 is rejected: the halving loop reaches the odd value 3. */
  lemma SixIsNotAPowerOfTwo()
    ensures !IsPow2(6)
  {
    forall k: nat
      ensures Pow2(k) != 6
    {
      assert 6 == 3 * Pow2(1);
      OddFactorNotPow2(3, 1, k);
    }
  }

  /** The inner loop of bitReverseCopy: lgN times, the lowest bit of index is
      appended to rev (rev = (rev << 1) | (index & 1)) and index is shifted
      right by one, which yields rev(i). */
  method ReversedIndex(i: nat, lgN: nat) returns (rev: nat)
    ensures rev == BitRev(i, lgN) && rev < Pow2(lgN)
  {
    var index := i;
    rev := 0;
    var j := 0;
    while j < lgN
      invariant j <= lgN && index == Shr(i, j) && rev == BitRev(i, j)
    {
      BitRevStep(i, j);
      ShrStep(i, j);
      rev := 2 * rev + index % 2;
      index := index / 2;
      j := j + 1;
    }
  }

  /** current_omega *= w: the twiddle of the next pair of a block. */
  method NextPower(cw: Complex, w: Complex, ghost j: nat) returns (r: Complex)
    requires cw == Pow(w, j)
    ensures r == Pow(w, j + 1)
  {
    r := Mul(cw, w);
  }

  class FFT {
    const n: nat
    const lgN: nat
    const inverse: bool
    const omega: seq<Complex>
    /** The working buffer, overwritten by every call of Transform. */
    const result: array<Complex>

    ghost predicate Valid()
    {
      Sized(n, lgN) && |omega| == lgN && result.Length == n
    }

    /** FFT(n, inverse). The source asserts that every halving step of n sees an
        even value, so a caller must pass a power of two (or 0 or 1). */
    constructor (n: nat, inverse: bool, cis: real -> Complex)
      requires n <= 1 || IsPow2(n)
      ensures Valid() && this.n == n && this.inverse == inverse
      ensures omega == TwiddleTable(lgN, inverse, cis)
      ensures fresh(result) && result[..] == Constant(n, Zero)
    {
      var stages := CountStages(n);
      var lg := stages.value;
      var table := seq(lg, _ => Zero);
      var m: nat := 1;
      var s := 0;
      while s < lg
        invariant s <= lg && m == Pow2(s) && |table| == lg
        invariant forall t :: 0 <= t < s ==> table[t] == cis(Exponent(inverse, Pow2(t + 1)))
      {
        m := m * 2;
        table := table[s := cis(Exponent(inverse, m))];
        s := s + 1;
      }
      this.n := n;
      this.lgN := lg;
      this.inverse := inverse;
      this.omega := table;
      this.result := new Complex[n](_ => Zero);
    }

    /** bitReverseCopy(src, dest): element i of src is written to dest[rev(i)],
        where rev(i) is computed bit by bit from the lgN low bits of i. src is
        only read. */
    method BitReverseCopy(src: seq<Complex>, dest: array<Complex>)
      requires Valid() && n <= |src| && dest.Length == n
      modifies dest
      ensures forall i :: 0 <= i < n ==> BitRev(i, lgN) < n && dest[BitRev(i, lgN)] == src[i]
      ensures dest[..] == BitReversed(src[..n], lgN)
    {
      var i := 0;
      while i < n
        invariant 0 <= i <= n
        invariant forall i' :: 0 <= i' < i ==> dest[BitRev(i', lgN)] == src[i']
      {
        var rev := ReversedIndex(i, lgN);
        assert n == Pow2(lgN);
        forall i' | 0 <= i' < i
          ensures BitRev(i', lgN) != rev
        {
          if BitRev(i', lgN) == rev {
            BitRevInjective(i', i, lgN);
          }
        }
        dest[rev] := src[i];
        i := i + 1;
      }
      forall k | 0 <= k < n
        ensures dest[k] == BitReversed(src[..n], lgN)[k]
      {
        BitRevInvolution(k, lgN);
      }
    }

    /** One butterfly of the pair loop: with u = result[lo] and t = tw times
        result[hi], result[lo] becomes u + t and result[hi] becomes u - t. */
    method Butterfly(lo: nat, hi: nat, tw: Complex) returns (u: Complex, t: Complex)
      requires Valid() && lo < hi < n
      modifies result
      ensures u == old(result[lo]) && t == Mul(tw, old(result[hi]))
      ensures result[..] == old(result[..])[lo := Add(u, t)][hi := Sub(u, t)]
    {
      t := Mul(tw, result[hi]);
      u := result[lo];
      result[lo] := Add(u, t);
      result[hi] := Sub(u, t);
    }

    /** The pair loop of one block: for j < h, with u the old element k+j and
        t = omega^j times the old element k+j+h, element k+j becomes u + t and
        element k+j+h becomes u - t; current_omega starts at 1 and is multiplied
        by w after each pair. Nothing outside the block changes. */
    method ButterflyBlock(k: nat, h: nat, w: Complex)
      requires Valid() && h >= 1 && k + 2 * h <= n
      modifies result
      ensures result[..] == AfterButterflies(old(result[..]), k, h, w, h)
    {
      ghost var a := result[..];
      var currentOmega := One;
      var j := 0;
      while j < h
        invariant 0 <= j <= h && currentOmega == Pow(w, j)
        invariant result[..] == AfterButterflies(a, k, h, w, j)
      {
        ghost var c := result[..];
        var u, t := Butterfly(k + j, k + j + h, currentOmega);
        AfterButterfliesStep(a, c, k, h, w, j, u, t);
        currentOmega := NextPower(currentOmega, w, j);
        j := j + 1;
      }
    }

    /** The block loop of stage s (m = 2^(s+1)): k steps by m across the buffer
        and every block gets its pair loop; together they apply one stage. */
    method ButterflyStage(s: nat, m: nat)
      requires Valid() && s < lgN && m == Pow2(s + 1)
      modifies result
      ensures n % (2 * Pow2(s)) == 0
      ensures result[..] == Stage(old(result[..]), Pow2(s), omega[s])
    {
      ghost var a := result[..];
      var h := m / 2;
      assert h == Pow2(s) && m == 2 * h;
      SizedDividesStage(n, lgN, s + 1);
      var k := 0;
      ghost var q := 0;
      while k < n
        invariant k == q * m && k <= n
        invariant forall p :: 0 <= p < k ==> result[p] == ButterflyAt(a, h, omega[s], p)
        invariant forall p :: k <= p < n ==> result[p] == a[p]
      {
        OffsetInBlock(q, m, 0);
        BlockBounds(n, m, k);
        ghost var before := result[..];
        ButterflyBlock(k, h, omega[s]);
        forall p | k <= p < k + m
          ensures result[p] == ButterflyAt(a, h, omega[s], p)
        {
          BlockIsStage(a, before, q, h, omega[s], p);
        }
        k := k + m;
        q := q + 1;
      }
    }

    /** transform(buf): the bit-reversed copy of buf[0..n) run through the lgN
        stages in place, divided by n in the forward direction and left
        unscaled in the inverse direction. The buffer returned is a copy of
        `result`, the engine's working buffer. */
    method Transform(buf: seq<Complex>) returns (out: seq<Complex>)
      requires Valid() && n <= |buf|
      modifies result
      ensures out == result[..]
      ensures out == Transformed(buf[..n], lgN, omega, inverse)
    {
      BitReverseCopy(buf, result);
      ghost var x := BitReversed(buf[..n], lgN);
      var m := 1;
      var s := 0;
      while s < lgN
        invariant s <= lgN && m == Pow2(s)
        invariant n % Pow2(s) == 0
        invariant result[..] == Stages(x, s, omega)
      {
        m := m * 2;   // m <<= 1
        ButterflyStage(s, m);
        s := s + 1;
        SizedDividesStage(n, lgN, s);
      }
      SizedDivides(n, lgN);
      ghost var y := result[..];
      assert y == Stages(x, lgN, omega);
      if !inverse {
        var i := 0;
        while i < n
          invariant 0 <= i <= n
          invariant forall p :: 0 <= p < i ==> result[p] == DivReal(y[p], n as real)
          invariant forall p :: i <= p < n ==> result[p] == y[p]
        {
          result[i] := DivReal(result[i], n as real);   // result[i] /= n
          i := i + 1;
        }
        assert result[..] == Normalized(y);
      }
      out := result[..];
    }
  }
}
