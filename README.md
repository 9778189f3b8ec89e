# FFT signal-processing kernel in Dafny

This project models the core of a small C signal-processing kernel and proves
properties of the model. The core has two files.

- `sigprocess.c` holds five routines:
  - the recursive radix-2 Cooley–Tukey `FFT`;
  - the in-place 2-D transform `FFT2D`;
  - FFT-based `convolveFFT` and `correlateFFT`;
  - the windowed Pearson correlator `pearsonCorrelator`.
- `util.c` holds the helpers these use:
  - `powerOfTwo` and `padArray`;
  - the `make*Array` allocators;
  - `average` and `getXBar`;
  - the int/double/complex conversions and `dequal`.

`complex double` is the datatype `Complex.Complex` over `real`, so all arithmetic is exact. `cpow(w, k)` is the exact power `Pow(w, k)`. The root of unity `omega` is a parameter, and so is the root of the negated angle, `omegaInv`. The C builds both with `cos`/`sin`. A primitive n-th root is one with `omega^(n/2) == -1`.

The C is imperative, and the model follows it:

- `FFT` fills fresh arrays in loops. It is the method `Fft.FFT`, proved equal to the recursive function `Fft.FftSpec`, which is proved equal to the DFT sum.
- `FFT2D` overwrites an `array2` in place through a reused `temp` buffer.
- `convolveFFT`/`correlateFFT` are methods built from the C's loops. They are proved to compute the cyclic convolution and correlation of the padded buffers. With zero padding, that is the linear convolution and correlation.
- `pearsonCorrelator` is a nested accumulation loop, proved against a function on sequences.

Modules:

- `Complex`: the datatype and the field laws.
- `Sums`: finite sums of complex terms.
- `Util`: util.c.
- `Fft`: the transform and its method.
- `DiscreteFourier`: the DFT and FFT == DFT.
- `Fft2D`: the 2-D transform.
- `Spectral`: orthogonality of roots of unity, and the convolution and correlation theorems.
- `Convolution`: `convolveFFT` and `correlateFFT`.
- `Pearson`: the correlator.

The code differs from the design description of the repository in the following ways. This model follows the code:

- `padArray` does not zero the padding (see Findings).
- A zero-variance window in the correlator yields a division by zero, not an error value.
- A non-power-of-two size in `FFT2D` only prints a message and carries on.
- `FFT2D` overwrites the caller's matrix in place and returns it (sigprocess.c:65, 78), where the design asks for a new matrix.
- `FFT` reports no error for an `n` that is not a power of two (sigprocess.c:24-36). For a non-power-of-two n >= 3 the split loop reads out of bounds (sigprocess.c:33-35). For n <= 0 the loop does nothing and the recursion at sigprocess.c:38 calls `FFT` with length 0 again and again. It never ends, unless `safeMalloc` exits the process first because calloc returned NULL (util.c:10-14). `FFT2D` reaches this with width 0 and height >= 1: it only prints at sigprocess.c:54 and then calls `FFT(temp, 0, omega)` at sigprocess.c:63. The model requires a power of two.
- `correlateFFT` does not return the plain cross-correlation. Outputs 0 .. lenX - 1 hold lags 0 .. lenX - 1, and the later outputs hold the negative lags lenX - new_len .. lenH + lenX - 2 - new_len, which wrap around the transform. Lag -1 is never returned, and an output whose lag is -lenH or below is always 0. For lenH = lenX = 4 (new_len 8) the seven outputs are lags 0, 1, 2, 3, -4, -3, -2. `pearsonCorrelator` reads only lags 0 .. lenX - lenH, so it is unaffected.

## Model

| member | source | states |
|---|---|---|
| Util.NextPow2 | util.c:174-181 | the result is a power of two, at least n, and least: it is 1 or its half is below n |
| Util.NextPow2Least | util.c:174-181 | no power of two q >= n is below NextPow2(n) |
| Util.Pow2LeastUnique | util.c:174-181 | a power of two p >= n whose half is below n (or p == 1) is NextPow2(n) |
| Util.NextPow2Fixed | util.c:174-181 | NextPow2(n) == n exactly when n is a power of two (the check FFT2D makes) |
| Util.NextPow2Idempotent | util.c:174-181 | rounding twice is rounding once |
| Util.PowerOfTwo | util.c:174-181 | the doubling loop returns the least power of two p2 >= n, and 1 when n <= 1 |
| Util.MakeIntArray | util.c:29-33 | a fresh array of n zeros (calloc) |
| Util.MakeDoubleArray | util.c:35-39 | a fresh array of n zeros (calloc) |
| Util.MakeComplexArray | util.c:41-43 | a fresh array of n zeros (calloc) |
| Util.PadArray | util.c:183-186 | a buffer of length newLen whose first min(old length, newLen) elements are the input's; the rest unspecified |
| Util.ZeroPadArray | util.c:183-186 | the padding with the tail zeroed: prefix kept, every element from len on is 0 |
| Util.SumConstant | util.c:192-198 | the sum of n copies of c is n * c |
| Util.MeanConstant | util.c:192-198 | the average of a constant array is that constant |
| Util.Average | util.c:192-198 | the accumulation loop returns Sum(arr[..len]) / len |
| Util.GetXBar | util.c:200-206 | the window mean Mean(x[d..d + lenH]), whatever lenX is |
| Util.TruncToInt | util.c:126-132 | the C cast (int): truncation toward zero, bounded by r on both signs |
| Util.TruncOfInt | util.c:126-132 | truncating an integral double gives that integer back |
| Util.DoubleToInt | util.c:126-132 | len elements, each the truncation of arr[i] |
| Util.IntToDouble | util.c:134-140 | len elements, each arr[i] as a double |
| Util.RealPlusZeroI | util.c:145 | arr[i] + 0*I is the complex number with real part arr[i] and imaginary part 0 |
| Util.DoubleToComplex | util.c:142-148 | len elements, each arr[i] with imaginary part 0 |
| Util.IntToComplex | util.c:150-156 | len elements, each arr[i] with imaginary part 0 |
| Util.ComplexToInt | util.c:158-167 | len elements, each the truncation of the real part of arr[i] |
| Util.Abs | util.c:171 | fabs: non-negative and equal to r or -r |
| Util.Dequal | util.c:169-172 | true exactly when b lies strictly within epsilon of a |
| Util.DequalSymmetric | util.c:169-172 | dequal(a, b, e) == dequal(b, a, e) |
| Util.DequalReflexive | util.c:169-172 | dequal(a, a, e) holds exactly when e > 0 |
| Fft.InterleaveSplit | sigprocess.c:31-36 | the even/odd split loses nothing: interleaving the halves gives the input back |
| Fft.SplitInterleave | sigprocess.c:31-36 | splitting an interleaving gives back the two halves |
| Fft.SplitEvenOdd | sigprocess.c:31-36 | fresh halves of length n/2 with a_even[i] == a[2i] and a_odd[i] == a[2i+1]; a unchanged |
| Fft.TopBottomNext | sigprocess.c:42-45 | one loop step with x == omega^i extends the top half by E[i] + x O[i] and the bottom half by E[i] - x O[i] |
| Fft.ButterflyAt | sigprocess.c:42-45 | y[i] == E[i] + omega^i O[i] and y[i + n/2] == E[i] - omega^i O[i] |
| Fft.Combine | sigprocess.c:41-47 | the twiddle loop (x starting at cpow(omega, 0) and multiplied by omega each step) fills a fresh y of length 2m with the butterfly of the halves |
| Fft.FftSplitAt | sigprocess.c:38-44 | FftSpec at i and i + n/2 is the butterfly of the halves' transforms with omega^2 |
| Fft.FFT | sigprocess.c:24-48 | for n == 1 the input array itself is returned; otherwise a fresh array of length n; its first n elements are FftSpec(a[..n], omega) |
| Fft.FftAdditive | sigprocess.c:24-48 | FFT(a + b) == FFT(a) + FFT(b) |
| Fft.FftHomogeneous | sigprocess.c:24-48 | FFT(c a) == c FFT(a) |
| DiscreteFourier.DftSingle | sigprocess.c:25-27 | a one-point DFT is the identity, as the C's base case |
| DiscreteFourier.SquareOfRoot | sigprocess.c:38-39 | omega^2 is a primitive root for the half length the recursion runs on |
| DiscreteFourier.TwiddleHalfTurn | sigprocess.c:44 | omega^(i + n/2) == -omega^i, the sign of the bottom half |
| DiscreteFourier.DftHigh | sigprocess.c:44 | the DFT at i + n/2 is E[i] - omega^i O[i] over the halves' DFTs |
| DiscreteFourier.FftIsDft | sigprocess.c:22-48 | with omega^(n/2) == -1, FFT(a)[k] == sum of a[j] omega^(jk) for every k |
| Fft2D.ReadRow | sigprocess.c:60-62 | temp becomes row `row` of the matrix |
| Fft2D.WriteRow | sigprocess.c:64-66 | row `row` becomes temp[..width]; nothing else changes |
| Fft2D.TransformRow | sigprocess.c:59-67 | one row replaced by its transform, every other element unchanged |
| Fft2D.RowPass | sigprocess.c:57-67 | every row is replaced by its transform |
| Fft2D.ReadColumn | sigprocess.c:73-75 | temp becomes column `col` |
| Fft2D.WriteColumn | sigprocess.c:77-79 | column `col` becomes temp[..height]; nothing else changes |
| Fft2D.ColumnFftAt | sigprocess.c:76 | with kernel length n == height the column is transformed; with n == 1 it is left as it was |
| Fft2D.TransformColumn | sigprocess.c:72-80 | one column replaced by ColumnFft with kernel length n, every other element unchanged |
| Fft2D.ColumnPass | sigprocess.c:70-80 | every column replaced by ColumnFft(column, n); in bounds only for n == height or n == 1 |
| Fft2D.FFT2DAsWritten | sigprocess.c:51-84 | the C as written (kernel length width in the column pass): returns the same matrix, rows transformed, then columns with length width |
| Fft2D.FFT2D | sigprocess.c:51-84 | the corrected routine: returns the same matrix, every row then every column transformed |
| Fft2D.RowFftIsDft | sigprocess.c:57-67 | the row pass computes the DFT of every row |
| Fft2D.FullColumnPassIsDft | sigprocess.c:70-80 | the corrected column pass computes the DFT of every column |
| Fft2D.Fft2DRowIsDft | sigprocess.c:51-84 | each row of the corrected 2-D transform is that row of the separable 2-D DFT |
| Fft2D.Fft2DIsDft | sigprocess.c:51-84 | the corrected FFT2D is the separable 2-D DFT |
| Fft2D.AsWrittenSquare | sigprocess.c:76 | for a square matrix the code as written is the 2-D transform |
| Fft2D.AsWrittenOneColumn | sigprocess.c:76 | with width 1 the code as written returns the matrix unchanged |
| Fft2D.TwoPoint | sigprocess.c:24-48 | the two-point transform is [a0 + a1, a0 - a1] |
| Fft2D.OneColumnTwoRows | sigprocess.c:51-84 | the 2-D transform of a 2x1 matrix is its sum and difference |
| Fft2D.AsWrittenColumnCounterexample | sigprocess.c:76 | [[1],[0]] with omega = -1: the code as written returns [[1],[0]]; the 2-D transform is [[1],[1]] |
| Spectral.Orthogonality | sigprocess.c:98-100 | for 0 < e < 3n, the sum over k < n of omega^(ek) is n when e is n or 2n, and 0 otherwise |
| Spectral.RootPeriod | sigprocess.c:98-100 | a primitive n-th root has omega^n == 1 |
| Spectral.InverseIsRoot | sigprocess.c:112-114 | the root of the negated angle is itself a primitive n-th root |
| Spectral.ConvolutionTheorem | sigprocess.c:102-116 | the inverse transform of H X is n times the cyclic convolution of h and x |
| Spectral.CorrelationTheorem | sigprocess.c:139-152 | the inverse transform of conj(H) X is n times the cyclic correlation of h with x |
| Spectral.ImpulseSpectrum | sigprocess.c:24-48 | the spectrum of the unit impulse is 1 everywhere, so multiplying by it changes nothing |
| Spectral.ImpulseConvolution | sigprocess.c:102-116 | the cyclic convolution of a with the unit impulse is a |
| Spectral.FftRoundTrip | sigprocess.c:22-48 | transforming with omega and then with omegaInv (omega omegaInv == 1) gives n times the input, for every power-of-two n |
| Convolution.PaddedLengthFits | sigprocess.c:89-93 | new_len is a power of two, at least 2, and greater than len_y = lenH + lenX - 1 |
| Convolution.PaddedLengthLeast | sigprocess.c:92-93 | new_len is the least power of two >= 2 that is at least twice each input length |
| Convolution.MultiplySpectra | sigprocess.c:106-110 | a fresh array with cy[i] == H[i] X[i], or conj(H[i]) X[i] for the correlation |
| Convolution.RescaleReal | sigprocess.c:118-121 | len doubles, y[i] == re(cy[i]) / new_len |
| Convolution.PadInputs | sigprocess.c:89-95 | new_len as above, and two buffers of that length keeping the inputs' prefixes |
| Convolution.ZeroPadInputs | sigprocess.c:89-95 | the same with zeros after the first lenH and lenX elements |
| Convolution.ProductSpectrum | sigprocess.c:102-110 | the pointwise product of the two transforms of the padded buffers |
| Convolution.TransformPadded | sigprocess.c:102-121 | from padded buffers: transform, multiply, transform back with omegaInv, rescale, truncate to lenY |
| Convolution.TransformPipeline | sigprocess.c:87-123 | lenH + lenX - 1 outputs of the pipeline over the buffers padArray returns |
| Convolution.ConvolveFFT | sigprocess.c:87-123 | convolveFFT as written: lenH + lenX - 1 outputs of the pipeline on the realloc'd buffers, whose prefixes are h and x |
| Convolution.CorrelateFFT | sigprocess.c:126-159 | correlateFFT as written: the same with conj(H) X |
| Convolution.PipelineIsDft | sigprocess.c:98-121 | both transforms of the pipeline are DFTs, at omega and at omegaInv |
| Convolution.RescaleScaled | sigprocess.c:120 | dividing re(n c) by n gives re(c) |
| Convolution.ConvolveIsCyclic | sigprocess.c:87-123 | every output is the real part of the cyclic convolution of the padded buffers |
| Convolution.CorrelateIsCyclic | sigprocess.c:126-159 | every output is the real part of the cyclic correlation of the padded buffers |
| Convolution.ConvTermsLinear | sigprocess.c:91-95 | with zero padding to new_len > len_y, the cyclic convolution sums equal the linear ones (no wrap-around) |
| Convolution.CorrTermsLinear | sigprocess.c:129-132 | with zero padding, the cyclic correlation at m is the linear correlation at lag m, or at lag m - new_len from m = lenX on |
| Convolution.ConvolveIsLinear | sigprocess.c:87-123 | on zero-padded buffers convolveFFT returns the real parts of the linear convolution of h[..lenH] and x[..lenX] |
| Convolution.CorrelateIsLinear | sigprocess.c:126-159 | on zero-padded buffers correlateFFT returns the correlation at lags 0 .. lenX - 1, then the wrapped negative lags |
| Convolution.ConvolveFFTZeroPadded | sigprocess.c:87-123 | convolveFFT with zeroed padding returns exactly the real parts of the linear convolution |
| Convolution.CorrelateFFTZeroPadded | sigprocess.c:126-159 | correlateFFT with zeroed padding returns exactly CorrelationLags of the inputs |
| Convolution.ConvolveCommutes | sigprocess.c:106-110 | convolveFFT is symmetric in h and x |
| Convolution.WrappedLags | sigprocess.c:126-159 | outputs lenX .. lenH + lenX - 2 of correlateFFT hold lags between lenX - new_len and -2, so lag -1 is never returned |
| Convolution.CorrelationBeyondTemplate | sigprocess.c:126-159 | the correlation at a lag of -lenH or below is 0 whatever the inputs |
| Convolution.UnzeroedPadding | util.c:183-186 | for every power-of-two padded length new_len and any roots omega, omegaInv with omega omegaInv == 1: if padArray's new elements repeat a constant c, output 0 is new_len * re(c c) where the convolution is re(c c); they differ when re(c c) != 0 |
| Pearson.WindowSums | sigprocess.c:169-178 | the inner loop's sum_x, sum_h and sum_num are the sums of squared deviations and of the cross terms, reading only x[d .. d + lenH) |
| Pearson.CoefficientOf | sigprocess.c:168-183 | output d is (cor[d] - sum_num, sum_x, sum_h) for the window at d |
| Pearson.PearsonCorrelator | sigprocess.c:163-186 | a fresh array of lenX - lenH + 1 outputs, output d computed from the window x[d .. d + lenH) and cor[d] |
| Pearson.SquaresNonNegative | sigprocess.c:175-176 | sum_x and sum_h are never negative |
| Pearson.FlatWindow | sigprocess.c:179-183 | a constant window has sum of squares 0: the C divides by zero |
| Pearson.NumeratorIsCovariance | sigprocess.c:177-182 | the sum of the products minus sum_num is the covariance sum about the means |
| Pearson.PearsonNumerators | sigprocess.c:165-182 | when cor[d] is the window's correlation with h, every numerator is the covariance of the window with h |
| Pearson.WindowCorrelation | sigprocess.c:165 | the correlation of real h and x at lag d is the sum of x[d + i] h[i] |
| Pearson.CorrelationNumerators | sigprocess.c:165 | the correlateFFT outputs the correlator reads (d <= lenX - lenH) are those window sums |
| Pearson.PearsonOfCorrelation | sigprocess.c:163-186 | with the zero-padded correlation, output d is (covariance of the window with h, its sum of squares, h's sum of squares) |
| Pearson.PearsonCorrelatorZeroPadded | sigprocess.c:163-186 | pearsonCorrelator with the complex conversion and zero padding: the correlator applied to the correlation of h with x |

## Left out

- Console I/O is not modelled: `printIntArray`, `printDoubleArray`, `readSignal`, `readSignalDouble`, `printSignal` and `printSignalDouble` (util.c:51-124).
- Allocation failure is not modelled. `safeMalloc` and `safeRealloc` exit the process on failure (util.c:8-27); here allocation is `new` and always succeeds.
- `destroyArray`, the `free` calls and the leaked intermediate arrays are not modelled (util.c:46-49, sigprocess.c:68, 81). Dafny is garbage-collected.
- Floating point is not modelled: rounding, `pi`, and the `cos`/`sin` construction of the roots (sigprocess.c:20, 99-100, 113-114). The roots are parameters: a primitive root `omega` and an `omegaInv` with `omega * omegaInv == 1`. For the correlation, `omegaInv` is also `conj(omega)`, as cos - i sin is of cos + i sin.
- `cpow` is the exact power `Pow`.
- Pearson.PearsonCorrelator: the square roots, `pow` and the final division (sigprocess.c:175-183) are not modelled. Each output is the triple (numerator, sum_x, sum_h) that y[d] is computed from, so nothing is claimed about values lying in [-1, 1].
- Pearson.PearsonCorrelator: takes `cor` as an input sequence. The C passes its `double*` arguments where `correlateFFT` expects `complex double*`, and `correlateFFT` reallocs the caller's h and x, which the correlator then reads (sigprocess.c:131-132, 165, 175-177). Neither has a meaning in the model. Pearson.PearsonCorrelatorZeroPadded converts the inputs with `doubleToComplex` instead and keeps the caller's arrays intact.
- Pearson.PearsonCorrelator: requires lenH - 1 <= lenX. With a longer filter the C asks for an array of negative length.
- Fft.FFT: requires n to be a power of two. For a non-power-of-two n >= 3 the C reads out of bounds (sigprocess.c:33-35). For n <= 0 the recursion at sigprocess.c:38 never ends, or the process exits if calloc returns NULL (util.c:10-14). `FFT2D` reaches n == 0 with width 0 (sigprocess.c:54, 63). The model's recursion on n terminates only because of this requires.
- Fft2D.FFT2D: requires power-of-two width and height where the C only prints a diagnostic and carries on (sigprocess.c:53-55).
- Fft2D.Fft2DIsDft: the C uses one `omega` for both passes. It is a primitive root of both lengths only when the matrix is square or one length is 1, so the DFT statement needs both.
- Convolution.ConvolveFFT: the model gives the realloc'd buffers fresh identities and leaves the caller's arrays unchanged. Moving or aliasing by `realloc` is not modelled. The same holds for Convolution.CorrelateFFT.
- Convolution.ConvolveFFT: requires 1 <= lenH + lenX. With both lengths 0 the C asks for an array of length -1. The same holds for Convolution.CorrelateFFT.
- Convolution.ConvolveFFT: the results are stated for any padding contents. The linear convolution and correlation are proved only for zeroed padding (ConvolveIsLinear, CorrelateIsLinear, the ZeroPadded methods).
- Util.PowerOfTwo: does not model the 32-bit overflow of `p2 *= 2` for n > 2^30. Integers are unbounded.
- Util.Average: requires len > 0. For len == 0 the C divides by zero.
- Util.GetXBar: requires d + lenH <= x.Length, which the C does not check.
- Util.GetXBar: requires 0 < lenH. For lenH == 0 the C passes an empty window to `average`, which computes 0.0 / 0 (util.c:192-198, 205).
- Fft2D.FFT2DAsWritten: requires a power-of-two width, and either width == height or 1 == width <= height. Only in those cases does the C stay in bounds. For 1 < width < height the copy back at sigprocess.c:77-79 reads past the kernel's width-element result. For width > height the kernel's split loop reads past the height-element `temp` (sigprocess.c:33-35, 76). See Findings.
- Util.TruncToInt: does not model doubles outside the range of `int`, whose conversion is undefined in C. The same holds for Util.DoubleToInt and Util.ComplexToInt.
- Util.Dequal: NaN operands are not modelled.

## Findings

| source | as written | input that shows it | evidently intended | confidence | as-written member | corrected member |
|---|---|---|---|---|---|---|
| sigprocess.c:76 | the column pass calls `FFT(temp, width, omega)` on a column of `height` elements | width 1, height 2, matrix [[1],[0]], omega = -1: the columns are left as they are, giving [[1],[0]] where the 2-D transform is [[1],[1]]; for 1 < width < height the kernel transforms only the first width elements and the copy back reads past its result; for width > height the kernel's split loop (sigprocess.c:33-35) already reads past the height-element `temp` | `FFT(temp, height, omega)` | not executed | Fft2D.AsWrittenColumnCounterexample | Fft2D.FFT2D |
| util.c:183-186 | `padArray` reallocs without zeroing the new elements, and `convolveFFT`/`correlateFFT` transform them (sigprocess.c:94-95, 131-132) | h = x = [1], new_len 2, the realloc'd element holding 1: y[0] = 2 where the convolution is 1; with every realloc'd element holding 1, y[0] = new_len for any padded length | zero the padding | not executed | Convolution.UnzeroedPadding | Convolution.ConvolveFFTZeroPadded |
