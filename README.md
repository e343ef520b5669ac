# opencl-fft: the CPU reference FFT engine and its consumers, in Dafny

This project models the CPU side of opencl-fft. It has three parts.

- **The engine, class `FFT`.** It is an iterative radix-2 decimation-in-time Cooley–Tukey transform, and the same code appears in `oclFFT/FFT.cpp` and `oclSoundFreq/FFT.cpp`.
  - The constructor counts the stages `lgN` by halving `n` and asserts evenness on the way. It then fills one twiddle per stage into `omega`.
  - `bitReverseCopy` writes `src[i]` to `dest[rev(i)]`.
  - `transform` runs the stage, block and pair loops in place over the member buffer `result`. It divides by `n` in the forward direction only, and returns a copy of `result`.
- **`multiply_polys`** in `oclFFT/oclFFT.cpp` and `oclFFT/poly_mult.cc`, together with the self-test in `main`.
- **The sound-frequency driver** `oclSoundFreq/oclSoundFreq.cpp`: the sample lift, the forward transform and the peak scan. It also holds the tolerance comparator `compareValues`, which `oclFFT/oclFFT.cpp` has too.

Complex values are pairs of exact reals. The library's `exp(i*theta)` is a function parameter `cis`. The twiddle table is therefore `omega[s] == cis(±2*PI/2^(s+1))`, with `PI = 3.14159265` as in the source. Most facts about the transform hold for any values of `cis`, for example zero in gives zero out, an impulse gives a constant, and the transform is linear. One more holds when the table is exact, that is when each twiddle omega[s] is a primitive 2^(s+1)-th root of unity (omega[s]^(2^s) == -1) and the square of the next one. Then the network computes the discrete Fourier transform with root omega[lgN-1]: entry k is the sum of x[i] * omega[lgN-1]^(i*k). The proof follows the Danielson–Lanczos decomposition stage by stage.

Two consequences are proved on top of that. First, when the inverse table holds the reciprocals of the forward one, the inverse transform undoes the forward one in either order. The engine's two tables are reciprocal in this sense whenever cis(-t) * cis(t) == 1. Second, `multiply_polys` then returns exactly the coefficients of the product polynomial, padded with zeros to the transform size, and the self-test of `main` succeeds.

The engine is a Dafny class whose array field `result` is overwritten by its methods. Each loop is a method proved against a specification function on sequences:

- `Butterflies.Stage` and `Butterflies.Stages` model the stages.
- `BitReversal.BitReversed` models the bit-reversed copy.
- `Butterflies.Transformed` models the whole transform.

The consumers call the class exactly as the source does:

- `multiply_polys` uses one forward engine for both inputs, then a fresh inverse engine.
- The driver uses one forward engine.

Modules:

| file | module |
|---|---|
| power_of_two.dfy | `PowerOfTwo`: 2^k, sizes, block arithmetic |
| complex.dfy | `ComplexNumbers` |
| bit_reversal.dfy | `BitReversal`: rev(i), involution, bijection, permutation |
| butterflies.dfy | `Butterflies`: the butterfly network as functions, iteration space, zero, impulse, linearity |
| engine.dfy | `Engine`: stage count, twiddle table, class `FFT` |
| compare.dfy | `Comparison`: `compareValues` |
| poly_mult.dfy | `PolyMult`: `multiply_polys` and the self-test |
| sound_freq.dfy | `SoundFreq`: peak scan and bin frequency |
| dft.dfy | `Dft`: with an exact twiddle table, the network computes the discrete Fourier transform |
| inversion.dfy | `Inversion`: finite sums, orthogonality of the roots of unity, the inverse of the discrete Fourier transform, and the round trip through forward and inverse engine |
| convolution.dfy | `Convolution`: with exact twiddles, `multiply_polys` returns exactly the coefficients of the product |

## Model

| member | source | states |
|---|---|---|
| Engine.CountStages | oclFFT/FFT.cpp:15-20 | The halving loop. It succeeds exactly when n <= 1 or n is a power of two. It then yields lgN with 2^lgN == n, or 0 for n <= 1. Otherwise the evenness assertion fails (Err). |
| Engine.SixIsNotAPowerOfTwo | oclSoundFreq/FFT.cpp:16-21 | Size 6 is rejected by the evenness assertion. |
| PowerOfTwo.OddFactorNotPow2 | oclSoundFreq/FFT.cpp:17-21 | Once the halving reaches an odd value above 1, n is no power of two, whatever the number of halvings so far. |
| Engine.FFT.constructor | oclFFT/FFT.cpp:12-36 | The new engine has the given n and direction. lgN is its stage count (2^lgN == n, or 0 for n <= 1). omega is the table of lgN twiddles cis(Exponent(inverse, 2^(s+1))). result is a fresh all-zero buffer of length n. |
| Engine.TwiddleTable | oclSoundFreq/FFT.cpp:22 | The twiddle table has exactly lgN entries. |
| Engine.ExponentSigns | oclSoundFreq/FFT.cpp:23-36 | The inverse exponent 2*PI/m is positive and the forward one is its negation. In each direction the angle halves when m doubles. |
| Engine.ReversedIndex | oclFFT/FFT.cpp:236-241 | The shift-and-or loop computes rev(i), the lgN-bit reversal of i, and rev(i) < 2^lgN. |
| BitReversal.BitRevStep | oclSoundFreq/FFT.cpp:275 | One step of the loop (shift rev left and append the low bit of index) extends the reversal of the low b bits to b+1 bits. |
| BitReversal.BitRevInvolution | oclFFT/FFT.cpp:239-240 | rev is an involution on [0, 2^lgN). |
| BitReversal.BitRevInjective | oclFFT/FFT.cpp:242 | rev is injective on [0, 2^lgN), so every dest position is written exactly once. |
| Engine.FFT.BitReverseCopy | oclFFT/FFT.cpp:231-244 | For every i < n, rev(i) < n and dest[rev(i)] == src[i]. dest equals the bit-reversed sequence. src is a value and stays unchanged. |
| BitReversal.BitReversedPermutes | oclSoundFreq/FFT.cpp:267-280 | The bit-reversed buffer is a permutation of the input (multisets equal). |
| BitReversal.BitReversedTwice | oclSoundFreq/FFT.cpp:270-278 | Reordering twice gives back the input. |
| Butterflies.ButterflyPairsDisjoint | oclFFT/FFT.cpp:51-67 | In every stage the indices k+j and k+j+h (h = m/2) lie in [0, n). A lower index is never an upper one, and (k, j) determines both indices. |
| Butterflies.ButterflyPairsCover | oclSoundFreq/FFT.cpp:64-70 | Every index of [0, n) is the lower or upper index of a pair with k a multiple of m and j < m/2, so each index is written exactly once per stage. |
| Engine.FFT.Butterfly | oclFFT/FFT.cpp:61-64 | One butterfly: with u the old result[k+j] and t = current_omega * old result[k+j+h], result[k+j] becomes u+t, result[k+j+h] becomes u-t, and nothing else changes. |
| Butterflies.AfterButterfliesStep | oclSoundFreq/FFT.cpp:74-77 | Pair j reads two elements no earlier pair of its block wrote. Writing u+t and u-t extends the block's state by one pair. |
| Engine.NextPower | oclFFT/FFT.cpp:65 | `current_omega *= omega[s]` turns omega[s]^j into omega[s]^(j+1). |
| Engine.FFT.ButterflyBlock | oclFFT/FFT.cpp:56-66 | current_omega starts at 1 and stays omega[s]^j. After the pair loop, the block holds the sums and differences and the rest of the buffer is unchanged. |
| Butterflies.PowAdd | oclSoundFreq/FFT.cpp:69-78 | The powers built by repeated multiplication satisfy w^(i+j) == w^i * w^j. |
| Butterflies.BlockIsStage | oclSoundFreq/FFT.cpp:67-80 | The h pairs of the block that starts at a multiple of m give that block's part of one stage. |
| Engine.FFT.ButterflyStage | oclFFT/FFT.cpp:53-67 | The block loop with k stepping by m applies exactly one stage `Stage(old result, 2^s, omega[s])` to the whole buffer. |
| Engine.FFT.Transform | oclFFT/FFT.cpp:38-91 | The returned copy equals result. Both equal Transformed(buf[0..n)): bit reversal, then the lgN stages in order, then division of every element by n in the forward direction and no scaling in the inverse one. |
| Butterflies.TransformOfZero | oclFFT/FFT.cpp:38-91 | An all-zero input gives all zeros in both directions, whatever the twiddles are. |
| Butterflies.TransformOfImpulse | oclSoundFreq/FFT.cpp:51-106 | An impulse at index 0 gives the constant 1/n forward and the constant 1 inverse, for any twiddles. |
| Butterflies.StagesOfImpulse | oclSoundFreq/FFT.cpp:64-87 | After s stages the impulse at index 0 has become 1 on the first 2^s indices and 0 on the rest, whatever the twiddles are. |
| Butterflies.TransformAdditive | oclFFT/FFT.cpp:51-84 | The transform of a sum is the sum of the transforms. |
| Butterflies.TransformHomogeneous | oclSoundFreq/FFT.cpp:64-98 | The transform commutes with multiplication by a complex constant. |
| Dft.EvalSplit | oclFFT/FFT.cpp:61-64 | The Danielson–Lanczos split: the polynomial with 2h coefficients at u is its even-indexed part at u^2 plus u times its odd-indexed part at u^2. |
| Dft.EvalSplitNegated | oclFFT/FFT.cpp:61-64 | At -u the even part is unchanged and the odd part changes sign, which is what the difference u - t uses. |
| Dft.HalfTurn | oclFFT/FFT.cpp:23-33 | When w^h == -1, w^(k+h) == -(w^k): the twiddle power of the upper half of a block is the negated one of the lower half. |
| Dft.SquaredTwiddle | oclFFT/FFT.cpp:23-33 | In an exact table the root before stage s, raised to k, is the square of omega[s]^k. |
| Dft.PairSum | oclFFT/FFT.cpp:61-63 | u + t with u, t the values of the pair after s stages is frequency k of the block's 2^(s+1)-point transform. |
| Dft.PairDifference | oclFFT/FFT.cpp:61-64 | u - t is frequency k + 2^s of the same transform. |
| Dft.StageStep | oclFFT/FFT.cpp:53-67 | One stage with an exact twiddle keeps the invariant: if every block of 2^s elements holds the transform of its stride-2^(lgN-s) subsequence, then after the stage every block of 2^(s+1) elements does. |
| Dft.StagesComputeEvals | oclFFT/FFT.cpp:40-67 | After s stages on the bit-reversed input, position b*2^s + k holds frequency k of the transform of the 2^s inputs with stride 2^(lgN-s) that start at rev(b). |
| Dft.TransformIsDft | oclFFT/FFT.cpp:38-91 | With an exact table, the inverse-direction result is the discrete Fourier transform of the input with root omega[lgN-1], and the forward-direction result is that transform divided by n. |
| Inversion.EvalAsSum | oclFFT/FFT.cpp:61-64 | The value the butterflies build up in Horner form is the sum of c(i) * u^i over i < len. |
| Inversion.SumSwap | oclFFT/FFT.cpp:51-67 | A double sum of terms may be taken rows first or columns first with the same result. |
| Inversion.GeometricVanishes | oclFFT/FFT.cpp:23-33 | For q != 1 with q^n == 1, the geometric sum 1 + q + ... + q^(n-1) is zero. |
| Inversion.GeometricOfOne | oclFFT/FFT.cpp:23-33 | For q == 1 the geometric sum of n terms is n. |
| Inversion.RootPrimitive | oclFFT/FFT.cpp:23-33 | In an exact table, omega[s]^d != 1 for every 0 < d < 2^(s+1): each twiddle is a primitive 2^(s+1)-th root of unity. |
| Inversion.RootOrder | oclFFT/FFT.cpp:23-33 | When omega[s]^(2^s) == -1, omega[s]^(2^(s+1)) == 1. |
| Inversion.PrimitiveRoot | oclSoundFreq/FFT.cpp:23-36 | The root of the whole transform, omega[lgN-1], satisfies w^n == 1 and w^d != 1 for 0 < d < n. |
| Inversion.Orthogonality | oclFFT/FFT.cpp:23-33 | For w a primitive n-th root and v == 1/w, the sum over k < n of (w^i * v^j)^k is n when i == j and 0 otherwise, for i, j < n. |
| Inversion.DftInverse | oclFFT/FFT.cpp:38-91 | The discrete Fourier transform with root 1/w of the one with a primitive root w gives n * x[j] at every j. |
| Inversion.DftOfNormalized | oclFFT/FFT.cpp:82-84 | Dividing the input by n divides the transform by n, so the forward scaling may be moved after the second transform. |
| Inversion.ReciprocalUnique | oclFFT/FFT.cpp:26-31 | A twiddle has at most one reciprocal. |
| Inversion.ReciprocalExact | oclFFT/FFT.cpp:23-33 | If the forward table is exact, a table of its reciprocals is exact too. |
| Inversion.RootsReciprocal | oclFFT/FFT.cpp:23-33 | The roots of reciprocal tables are reciprocal at every stage count. |
| Inversion.TwiddleTablesReciprocal | oclSoundFreq/FFT.cpp:23-36 | When cis(-t) * cis(t) == 1, every forward twiddle times the inverse twiddle of the same stage is 1: the two directions use the exponents -2*PI/m and 2*PI/m. |
| Inversion.RoundTrip | oclFFT/FFT.cpp:38-91 | With an exact forward table and a reciprocal inverse table, the inverse transform of the forward transform of x is x. |
| Inversion.RoundTripInverseFirst | oclSoundFreq/FFT.cpp:51-106 | Under the same hypotheses, the forward transform of the inverse transform of x is x. |
| Inversion.EngineRoundTrip | oclFFT/FFT.cpp:12-91 | For the tables the constructor builds in the two directions, both round trips give back x whenever the forward table is exact and cis(-t) * cis(t) == 1. |
| PolyMult.RescaleUndoesNormalization | oclSoundFreq/FFT.cpp:96-98 | Multiplying the forward result by n gives the unscaled network result: the forward direction divides by n and the inverse does not. |
| PolyMult.TransformSize | oclFFT/oclFFT.cpp:72-76 | The doubling loop from 2 yields ProductSize(len a + len b). |
| PolyMult.ProductSizeSmallest | oclFFT/poly_mult.cc:54-58 | That size is a power of two, at least 2 and at least the total length, and no smaller power of two has both properties. |
| PolyMult.Resized | oclFFT/oclFFT.cpp:78-79 | `resize(n, 0)` keeps the coefficients below n and fills the indices [len, n) with 0. |
| PolyMult.LiftBoth | oclFFT/oclFFT.cpp:85-89 | Each complex input has the padded coefficient as real part and 0 as imaginary part. |
| PolyMult.RescaleBoth | oclFFT/oclFFT.cpp:131-135 | Both forward results are multiplied elementwise by n. |
| PolyMult.PointwiseProduct | oclFFT/oclFFT.cpp:137-139 | c[i] = a[i] * b[i] for every i. |
| PolyMult.RealPartsOver | oclFFT/oclFFT.cpp:162-165 | Each output coefficient is the real part of the inverse result divided by n. |
| PolyMult.MultiplyPolys | oclFFT/oclFFT.cpp:69-166 | The output is PolynomialProduct(a, b): rounding, padding, lift, two forward transforms on one engine, rescale, pointwise product, inverse transform on a fresh engine, and real parts over n. |
| PolyMult.PointValues | oclFFT/poly_mult.cc:60-78 | The point values of a padded input have length 2^lg. |
| PolyMult.PolynomialProduct | oclFFT/poly_mult.cc:84-89 | The output has length ProductSize(len a + len b), so n coefficients. |
| PolyMult.PointValuesOfZero | oclFFT/poly_mult.cc:64-78 | The zero polynomial has all-zero point values. |
| PolyMult.ZeroFactorGivesZeroProduct | oclFFT/poly_mult.cc:51-90 | Multiplying by the zero polynomial gives all-zero coefficients, for any twiddles. |
| PolyMult.ProductCommutes | oclFFT/poly_mult.cc:80-82 | Swapping the two factors gives the same product. |
| PolyMult.SelfTestExpectsProduct | oclFFT/oclFFT.cpp:51-65 | The self-test uses a transform of size 8. Its expected values 45, -102, -4, -91 are exactly the convolution of 9+3x+7x^2 with 5-13x, and they pass the EPSILON = 1e-6 check. |
| PolyMult.SelfTest | oclFFT/poly_mult.cc:33-48 | main's verdict is the EPSILON check of the first four coefficients of the product, which has 8 coefficients. |
| Convolution.ConvolveVanishes | oclFFT/poly_mult.cc:80-82 | The product of the first i coefficients of a with b has no coefficient below degree 0 or above degree i + len b - 2. |
| Convolution.ConvolveStep | oclFFT/oclFFT.cpp:137-139 | Adding coefficient a[i] adds a[i] * x^i * b to the product, coefficient by coefficient. |
| Convolution.ProductOfEvals | oclFFT/oclFFT.cpp:137-139 | The value of a at u times the value of b at u is the value at u of their convolution: pointwise products of point values are point values of the product. |
| Convolution.PaddedInputValue | oclFFT/oclFFT.cpp:78-79 | Padding a polynomial with zeros to n coefficients does not change its value at any point. |
| Convolution.PaddedProductValue | oclFFT/poly_mult.cc:60-61 | The padded convolution has the same value as the unpadded one at any point. |
| Convolution.PointValuesAreDft | oclFFT/poly_mult.cc:64-78 | With an exact table, the rescaled forward transform of the padded, lifted polynomial is its discrete Fourier transform with root omega[lg-1]: its values at the powers of that root. |
| Convolution.ProductValues | oclFFT/poly_mult.cc:79-82 | The pointwise product of the two sets of point values is the discrete Fourier transform of the padded convolution. |
| Convolution.InverseOfProductValues | oclFFT/oclFFT.cpp:140-142 | The inverse transform of the product values is n times the padded convolution. |
| Convolution.ProductIsConvolution | oclFFT/oclFFT.cpp:69-166 | With an exact forward table and cis(-t) * cis(t) == 1, multiply_polys returns exactly the convolution of a and b padded with zeros to ProductSize(len a + len b) coefficients. |
| Convolution.SelfTestSucceeds | oclFFT/oclFFT.cpp:51-66 | Under the same hypotheses for the size-8 tables, the product of 9+3x+7x^2 and 5-13x is [45, -102, -4, -91, 0, 0, 0, 0] and the self-test reports OK. |
| Comparison.CompareValues | oclFFT/oclFFT.cpp:337-355 | OK holds exactly when every index below n has both component differences within EPSILON2 = 0.001. Exactly the disagreeing indices are reported, in increasing order. OK holds exactly when none is reported. |
| Comparison.AgreeBelow | oclSoundFreq/oclSoundFreq.cpp:205-223 | The OK flag folded over the first i indices is true exactly when none of them differs by more than 0.001 in either component. |
| SoundFreq.LoudIffIntensityAbove100 | oclSoundFreq/oclSoundFreq.cpp:76 | The modelled threshold (squared magnitude > 10000) holds exactly when the intensity abs(c) is strictly greater than 100. |
| SoundFreq.PeaksBelow | oclSoundFreq/oclSoundFreq.cpp:75-76 | The reports of the scan over [0, k) have bins in strictly increasing order below k. Each bin reported is loud and every loud bin is reported, with frequency BinFrequency(bin, n). |
| SoundFreq.QuietBinsNoPeaks | oclSoundFreq/oclSoundFreq.cpp:75-77 | Without a loud bin the scan reports nothing. |
| SoundFreq.ReportPeaks | oclSoundFreq/oclSoundFreq.cpp:75-78 | The scan loop over k < (n >> 1) reports exactly PeaksBelow(frequencies, n, n/2). |
| SoundFreq.BinFrequencyBounds | oclSoundFreq/oclSoundFreq.cpp:15 | With 8192 samples per second, the frequency of a scanned bin is the floor of k*8192/n and lies in [0, 4096). |
| SoundFreq.Int32AgreesBelowOverflow | oclSoundFreq/oclSoundFreq.cpp:77 | While k*8192 < 2^31 the printed int expression equals the exact frequency. |
| SoundFreq.OverflowExample | oclSoundFreq/oclSoundFreq.cpp:77 | For n = 2^20 and bin 2^18 (inside the scanned half) the printed int expression is -2048 where the frequency is 2048. |
| SoundFreq.Spectrum | oclSoundFreq/oclSoundFreq.cpp:58-59 | The spectrum has one value per sample. |
| SoundFreq.AnalyzeSpectrum | oclSoundFreq/oclSoundFreq.cpp:54-78 | The samples are lifted in order with imaginary part 0 and transformed forward by a fresh engine of size n. The peaks are the scan of the lower half of that spectrum. |
| SoundFreq.SilenceHasNoPeaks | oclSoundFreq/oclSoundFreq.cpp:54-56 | A silent recording yields no reported peak. |

## Left out

- The OpenCL harness is not modelled, because it consists of calls into a device API whose behaviour is not visible. This covers `opencl_init`, `Cleanup`, `transformGPU`, all `clSetKernelArg`/`clEnqueue*` calls, and the `(float)` casts into `cl_float2`/`cl_double2`. `compareValues` therefore takes the device values as a sequence of complex numbers.
- Floating point is not modelled: arithmetic is on exact reals.
  - `exp` is the parameter `cis`.
  - `getIntensity` (abs) and `getPhase` (arg) are not modelled, because they need a square root and an arctangent.
  - Rounding drift in repeated twiddle multiplication is not modelled.
  - The table the constructor builds from `exp` and `PI = 3.14159265` is not exactly a table of roots of unity, and `exp` is not modelled. The theorems about what the network computes therefore take hypotheses instead of proving them for `TwiddleTable(cis)`. These theorems are `Dft.TransformIsDft`, `Inversion.EngineRoundTrip`, `Convolution.ProductIsConvolution` and `Convolution.SelfTestSucceeds`. The hypotheses are an exact forward table (`Dft.ExactTwiddles`) and cis(-t) * cis(t) == 1.
  - Convolution.SelfTestSucceeds: the floating-point outcome of the self-test is not modelled. Whether the rounded results stay within EPSILON = 1e-6 of these exact values is not proved.
- SoundFreq.ReportPeaks: a report records the bin and its frequency, but not the printed intensity value, which needs a square root.
- SoundFreq.ReportPeaks: the reported frequency is the exact k*8192/n (`BinFrequency`), not the wrapped 32-bit value the code prints; see Findings.
- Timing (`clock`, `getcputime`, `shrLog`) and every `cout` dump are not modelled, because they do not affect the results. `compareValues`' printed lines are its returned list of indices.
- The file read of `pcm.pcm` (`fopen`, `ftell`, `fread`) is not modelled, because it is I/O. The samples are a parameter of `SoundFreq.AnalyzeSpectrum`, which requires the sample count to be a power of two (or 0 or 1) as the engine's assertion does.
- Engine.FFT.constructor: n is a `nat`. A negative `int` n would make the source's `vector<Complex>(n)` fail before the halving loop, and that failure is not modelled.
- PolyMult.TransformSize: sizes are unbounded integers. The `int` doubling loop would overflow for a total length above 2^30.
- Engine.FFT.Transform: the source never checks the input length. The model requires at least n input values (it reads buf[0..n)), because reading past the end of a shorter vector is undefined in the source.
- The build defects in `oclFFT/poly_mult.cc` (the two-argument declaration at line 13 against the four-argument call and definition, and `ci_Err1` against `ciErr1`) are not modelled. Its `multiply_polys` body is modelled as written and behaves like the one in `oclFFT/oclFFT.cpp`.
- The headers `FFT.h` hold declarations only. The class mirrors their fields `n`, `lgN`, `inverse`, `omega` and `result`.

## Findings

| source | as written | input that shows it | evidently intended | confidence | as-written member | corrected member |
|---|---|---|---|---|---|---|
| oclSoundFreq/oclSoundFreq.cpp:77 | `k * samples_per_second / n` is evaluated in 32-bit `int`, and k*8192 overflows once k >= 2^18 | a recording of n = 2^20 samples (about 2 MB of 16-bit PCM), bin k = 2^18 < n/2: k*8192 = 2^31 wraps to -2^31 and the line prints -2048 | the bin frequency k*8192/n = 2048, computed without overflow (for example in 64-bit or as k*(8192/n) in floating point) | not executed; signed overflow is undefined behaviour in C++, and two's-complement wrap is its usual effect | SoundFreq.BinFrequencyInt32 | SoundFreq.BinFrequency |

Two lemmas support this finding:

- `SoundFreq.OverflowExample` exhibits the wrong value produced as written.
- `SoundFreq.Int32AgreesBelowOverflow` shows that the two agree below the overflow.

`SoundFreq.BinFrequencyBounds` proves the intended property of the corrected definition, which the scan uses: the floor of k*8192/n, in [0, 4096).

Two behaviours of the code are modelled as they are written:

- `multiply_polys` does divide the real parts by n at the end (oclFFT/oclFFT.cpp:162-165 and oclFFT/poly_mult.cc:86-88).
- `transform` has no size check on its input.
