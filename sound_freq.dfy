/**
  The sound-frequency driver: the 16-bit samples of a recording are lifted to
  complex values, transformed forward by the engine, and every bin k of the
  lower half of the spectrum whose intensity exceeds 100 is reported with the
  frequency k * samples_per_second / n, at 8192 samples per second. The
  samples are a parameter here (the file they are read from is not modelled),
  and a report is the bin together with its frequency.
 */
module SoundFreq {
  import opened PowerOfTwo
  import opened ComplexNumbers
  import opened Butterflies
  import opened Engine

  newtype Int16 = x: int | -0x8000 <= x < 0x8000

  const SamplesPerSecond: int := 8192

  /** One reported line: a bin and the frequency printed for it. */
  datatype Peak = Peak(bin: nat, frequency: int)

  /** getIntensity(c) > 100, that is |c| > 100, stated without the square
      root: the squared magnitude exceeds 100^2. */
  predicate Loud(c: Complex)
  {
    c.re * c.re + c.im * c.im > 10000.0
  }

  /** Loud is exactly the source's threshold on the magnitude r = |c|. */
  lemma LoudIffIntensityAbove100(c: Complex, r: real)
    requires r >= 0.0 && r * r == c.re * c.re + c.im * c.im
    ensures Loud(c) <==> r > 100.0
  {
    if r > 100.0 {
      assert r * r > 100.0 * r >= 100.0 * 100.0;
    } else {
      assert r * r <= 100.0 * r <= 100.0 * 100.0;
    }
  }

  /** The frequency of bin k: k * samples_per_second / n in exact integers
      (both operands are non-negative, so truncation and floor agree). */
  function BinFrequency(k: nat, n: nat): int
    requires n > 0
  {
    k * SamplesPerSecond / n
  }

  /** The frequency of a bin of the lower half is the floor of k*8192/n and
      lies in [0, 4096), below half the sampling rate. */
  lemma BinFrequencyBounds(k: nat, n: nat)
    requires k < n / 2
    ensures BinFrequency(k, n) * n <= k * SamplesPerSecond < (BinFrequency(k, n) + 1) * n
    ensures 0 <= BinFrequency(k, n) < SamplesPerSecond / 2
  {
    var f := BinFrequency(k, n);
    var x := k * SamplesPerSecond;
    assert x == f * n + x % n;
    assert 2 * k < n;
    assert x < n * (SamplesPerSecond / 2) by {
      assert x == (2 * k) * (SamplesPerSecond / 2);
      MulMonotone(2 * k + 1, n, SamplesPerSecond / 2);
    }
    if f >= SamplesPerSecond / 2 {
      MulMonotone(SamplesPerSecond / 2, f, n);
    }
  }

  /** A multiplication in 32-bit two's complement: the exact value wrapped into
      [-2^31, 2^31). */
  function Wrap32(x: int): (r: int)
    ensures -0x8000_0000 <= r < 0x8000_0000
  {
    var m := x % 0x1_0000_0000;
    if m >= 0x8000_0000 then m - 0x1_0000_0000 else m
  }

  /** C++ integer division, which truncates toward zero. */
  function TruncDiv(a: int, b: int): int
    requires b > 0
  {
    if a >= 0 then a / b else -((-a) / b)
  }

  /** The frequency as the driver computes it, in int: k * samples_per_second
      wraps around once it reaches 2^31. */
  function BinFrequencyInt32(k: int, n: int): int
    requires n > 0
  {
    TruncDiv(Wrap32(k * SamplesPerSecond), n)
  }

  /** Below the overflow the driver's formula is the exact one. */
  lemma Int32AgreesBelowOverflow(k: nat, n: nat)
    requires n > 0 && k * SamplesPerSecond < 0x8000_0000
    ensures BinFrequencyInt32(k, n) == BinFrequency(k, n)
  {
    assert Wrap32(k * SamplesPerSecond) == k * SamplesPerSecond;
  }

  /** A recording of 2^20 samples (128 seconds) has bin 2^18 in the scanned
      half; the driver prints -2048 for it instead of 2048. */
  lemma OverflowExample()
    ensures 0x4_0000 < 0x10_0000 / 2 && 0x10_0000 == Pow2(20)
    ensures BinFrequency(0x4_0000, 0x10_0000) == 2048
    ensures BinFrequencyInt32(0x4_0000, 0x10_0000) == -2048
  {
    assert Pow2(10) == 1024;
    assert Pow2(20) == Pow2(10) * Pow2(10) by {
      Pow2Add(10, 10);
    }
    assert 0x4_0000 * SamplesPerSecond == 0x8000_0000;
    assert Wrap32(0x8000_0000) == -0x8000_0000;
  }

  /** The reports of the scan over bins [0, k): every loud bin, in increasing
      order, with its frequency. */
  function PeaksBelow(f: seq<Complex>, n: nat, k: nat): (r: seq<Peak>)
    requires k <= n / 2 && n <= |f|
    ensures forall d :: 0 <= d < |r| ==>
      r[d].bin < k && Loud(f[r[d].bin]) && r[d].frequency == BinFrequency(r[d].bin, n)
    ensures forall j :: 0 <= j < k && Loud(f[j]) ==> exists d :: 0 <= d < |r| && r[d].bin == j
    ensures forall d, e :: 0 <= d < e < |r| ==> r[d].bin < r[e].bin
  {
    if k == 0 then []
    else
      var earlier := PeaksBelow(f, n, k - 1);
      if Loud(f[k - 1]) then
        var r := earlier + [Peak(k - 1, BinFrequency(k - 1, n))];
        assert r[|earlier|].bin == k - 1;
        assert forall d :: 0 <= d < |earlier| ==> r[d] == earlier[d];
        r
      else earlier
  }

  /** Without a loud bin below k the scan reports nothing. */
  lemma {:induction false} QuietBinsNoPeaks(f: seq<Complex>, n: nat, k: nat)
    requires k <= n / 2 && n <= |f|
    requires forall j :: 0 <= j < k ==> !Loud(f[j])
    ensures PeaksBelow(f, n, k) == []
  {
    if k > 0 {
      QuietBinsNoPeaks(f, n, k - 1);
    }
  }

  /** The scan loop: for k < (n >> 1), a bin whose intensity exceeds 100 is
      reported with its frequency. */
  method ReportPeaks(frequencies: seq<Complex>, n: nat) returns (peaks: seq<Peak>)
    requires n <= |frequencies|
    ensures peaks == PeaksBelow(frequencies, n, n / 2)
  {
    peaks := [];
    var k := 0;
    while k < n / 2   // n >> 1
      invariant 0 <= k <= n / 2
      invariant peaks == PeaksBelow(frequencies, n, k)
    {
      if Loud(frequencies[k]) {
        peaks := peaks + [Peak(k, k * SamplesPerSecond / n)];
      }
      k := k + 1;
    }
  }

  /** Each sample as a complex value with imaginary part 0, in order. */
  function LiftSamples(samples: seq<Int16>): (r: seq<Complex>)
    ensures |r| == |samples|
  {
    seq(|samples|, i requires 0 <= i < |samples| => FromReal(samples[i] as real))
  }

  /** The forward transform of the recording. */
  function Spectrum(samples: seq<Int16>, cis: real -> Complex): (r: seq<Complex>)
    requires |samples| <= 1 || IsPow2(|samples|)
    ensures |r| == |samples|
  {
    var n := |samples|;
    Log2Sized(n);
    Transformed(LiftSamples(samples), Log2(n), TwiddleTable(Log2(n), false, cis), false)
  }

  /** A silent recording has no peaks. */
  lemma SilenceHasNoPeaks(samples: seq<Int16>, cis: real -> Complex)
    requires |samples| <= 1 || IsPow2(|samples|)
    requires forall i :: 0 <= i < |samples| ==> samples[i] == 0
    ensures PeaksBelow(Spectrum(samples, cis), |samples|, |samples| / 2) == []
  {
    var n := |samples|;
    Log2Sized(n);
    assert LiftSamples(samples) == Constant(n, Zero);
    TransformOfZero(n, Log2(n), TwiddleTable(Log2(n), false, cis), false);
    var f := Spectrum(samples, cis);
    assert f == Constant(n, Zero);
    assert !Loud(Zero);
    QuietBinsNoPeaks(f, n, n / 2);
  }

  /** The computing part of main: lift the samples, transform them forward
      with a fresh engine of size n, and scan the lower half of the spectrum. */
  method AnalyzeSpectrum(samples: seq<Int16>, cis: real -> Complex) returns (frequencies: seq<Complex>, peaks: seq<Peak>)
    requires |samples| <= 1 || IsPow2(|samples|)
    ensures frequencies == Spectrum(samples, cis)
    ensures peaks == PeaksBelow(frequencies, |samples|, |samples| / 2)
  {
    var n := |samples|;
    var bufComplex := new Complex[n](_ => Zero);
    var i := 0;
    while i < n
      invariant 0 <= i <= n
      invariant forall j :: 0 <= j < i ==> bufComplex[j] == FromReal(samples[j] as real)
    {
      bufComplex[i] := FromReal(samples[i] as real);   // buf_complex[i] = buf[i]
      i := i + 1;
    }
    assert bufComplex[..n] == LiftSamples(samples);
    var dft := new FFT(n, false, cis);
    Log2Sized(n);
    SizedUnique(n, dft.lgN, Log2(n));
    frequencies := dft.Transform(bufComplex[..]);
    peaks := ReportPeaks(frequencies, n);
  }
}
