/** FFT-based convolution and correlation of sigprocess.c (`convolveFFT`,
    `correlateFFT`). Both pad the two inputs to PaddedLength elements,
    transform them with omega, multiply the spectra pointwise (the
    correlation conjugates the filter's spectrum first), transform back with
    the root of the negated angle, omegaInv, and return the real parts of
    the first lenH + lenX - 1 outputs divided by the padded length.

    The roots omega and omegaInv are parameters: the C builds them from
    cos and sin of 2 pi / n and of its negation, a primitive n-th root of
    unity and its inverse, which is also its conjugate. The padding is util.c
    `padArray`, a realloc, which keeps the first elements of the buffer and
    leaves the rest unspecified: ConvolveFFT and CorrelateFFT return the
    padded buffers they worked on as ghost outputs, so that what the result
    is can be stated whatever the padding holds. With zeros in the padding
    (ConvolveFFTZeroPadded, CorrelateFFTZeroPadded) the results are the
    linear convolution and correlation of the inputs. */
module Convolution {
  import opened Complex
  import opened Util
  import opened Fft
  import opened Sums
  import opened DiscreteFourier
  import opened Spectral

  // ---------------------------------------------------------------------
  // Lengths

  /** `new_len`: twice the power of two that `powerOfTwo` gives for the
      longer input. */
  function PaddedLength(lenH: int, lenX: int): nat {
    2 * NextPow2(if lenH > lenX then lenH else lenX)
  }

  /** The padded length is a power of two, at least 2, and strictly greater
      than the number of outputs lenH + lenX - 1, so the cyclic convolution
      of the padded inputs has room for every term of the linear one. */
  lemma PaddedLengthFits(lenH: int, lenX: int)
    ensures IsPow2(PaddedLength(lenH, lenX)) && 2 <= PaddedLength(lenH, lenX)
    ensures lenH + lenX - 1 < PaddedLength(lenH, lenX)
  {
    var p := NextPow2(if lenH > lenX then lenH else lenX);
    assert PaddedLength(lenH, lenX) / 2 == p;
  }

  /** It is the least power of two that is at least twice each input
      length (and at least 2). */
  lemma PaddedLengthLeast(lenH: int, lenX: int, q: int)
    requires IsPow2(q) && 2 <= q && 2 * lenH <= q && 2 * lenX <= q
    ensures PaddedLength(lenH, lenX) <= q
  {
    var longer := if lenH > lenX then lenH else lenX;
    assert IsPow2(q / 2) && longer <= q / 2;
    NextPow2Least(longer, q / 2);
  }

  // ---------------------------------------------------------------------
  // The pipeline on sequences

  /** The first len real parts, divided by n: the C's `cy[i] / new_len`
      stored into a double. */
  function Rescale(cy: seq<Complex>, len: nat, n: nat): (y: seq<real>)
    requires len <= |cy| && 0 < n
    ensures |y| == len
  {
    seq(len, i requires 0 <= i < len => cy[i].re / n as real)
  }

  /** What the pipeline returns for padded inputs hp and xp. */
  function Pipeline(hp: seq<Complex>, xp: seq<Complex>, len: nat, conjugateH: bool,
                    omega: Complex, omegaInv: Complex): (y: seq<real>)
    requires IsPow2(|hp|) && |xp| == |hp| && len <= |hp|
    ensures |y| == len
  {
    var spectrum := Multiply(FftSpec(hp, omega), FftSpec(xp, omega), conjugateH);
    Rescale(FftSpec(spectrum, omegaInv), len, |hp|)
  }

  /** `convolveFFT` on padded inputs. */
  function ConvolveSpec(hp: seq<Complex>, xp: seq<Complex>, len: nat, omega: Complex, omegaInv: Complex): (y: seq<real>)
    requires IsPow2(|hp|) && |xp| == |hp| && len <= |hp|
    ensures |y| == len
  {
    Pipeline(hp, xp, len, false, omega, omegaInv)
  }

  /** `correlateFFT` on padded inputs. */
  function CorrelateSpec(hp: seq<Complex>, xp: seq<Complex>, len: nat, omega: Complex, omegaInv: Complex): (y: seq<real>)
    requires IsPow2(|hp|) && |xp| == |hp| && len <= |hp|
    ensures |y| == len
  {
    Pipeline(hp, xp, len, true, omega, omegaInv)
  }

  /** The real parts of a sequence of complex numbers. */
  function RealParts(s: seq<Complex>): (r: seq<real>)
    ensures |r| == |s|
  {
    seq(|s|, i requires 0 <= i < |s| => s[i].re)
  }

  /** The lag that output m of `correlateFFT` holds for an n-point
      transform: m itself below lenX, the wrapped negative lag m - n from
      there on. */
  function Lag(m: nat, lenX: nat, n: nat): int {
    if m < lenX then m else m - n
  }

  /** The lenH + lenX - 1 values `correlateFFT` is meant to return: the
      real parts of the correlation of h with x at lags 0 .. lenX - 1, then
      at the negative lags that wrap around the n-point transform. */
  function CorrelationLags(h: seq<Complex>, x: seq<Complex>, n: nat): (y: seq<real>)
    requires 1 <= |h| + |x|
    ensures |y| == |h| + |x| - 1
  {
    seq(|h| + |x| - 1, m requires 0 <= m => CrossCorrelation(h, x, Lag(m, |x|, n)).re)
  }

  // ---------------------------------------------------------------------
  // The C routines

  /** The loop `cy[i] = h[i] * x[i]` (or `conj(h[i]) * x[i]`) over a fresh
      array. */
  method MultiplySpectra(hf: array<Complex>, xf: array<Complex>, n: int, conjugateH: bool)
    returns (cy: array<Complex>)
    requires 0 <= n <= hf.Length && n <= xf.Length
    ensures fresh(cy) && cy.Length == n
    ensures cy[..] == Multiply(hf[..n], xf[..n], conjugateH)
  {
    cy := MakeComplexArray(n);
    var i := 0;
    while i < n
      invariant 0 <= i <= n
      invariant forall k :: 0 <= k < i ==> cy[k] == Mul(if conjugateH then Conj(hf[k]) else hf[k], xf[k])
    {
      cy[i] := Mul(if conjugateH then Conj(hf[i]) else hf[i], xf[i]);
      i := i + 1;
    }
  }

  /** The loop `y[i] = cy[i] / new_len` into a fresh array of doubles. */
  method RescaleReal(cy: array<Complex>, len: int, n: int) returns (y: array<real>)
    requires 0 <= len <= cy.Length && 0 < n
    ensures fresh(y) && y[..] == Rescale(cy[..], len, n)
  {
    y := MakeDoubleArray(len);
    var i := 0;
    while i < len
      invariant 0 <= i <= len
      invariant forall k :: 0 <= k < i ==> y[k] == cy[k].re / n as real
    {
      y[i] := cy[i].re / n as real;
      i := i + 1;
    }
  }

  /** The length computation and the two `padArray` calls. */
  method PadInputs(h: array<Complex>, lenH: int, x: array<Complex>, lenX: int)
    returns (hPad: array<Complex>, xPad: array<Complex>, newLen: int)
    ensures newLen == PaddedLength(lenH, lenX) && IsPow2(newLen) && lenH + lenX - 1 < newLen
    ensures fresh(hPad) && hPad.Length == newLen && fresh(xPad) && xPad.Length == newLen
    ensures forall i :: 0 <= i < h.Length && i < newLen ==> hPad[i] == h[i]
    ensures forall i :: 0 <= i < x.Length && i < newLen ==> xPad[i] == x[i]
  {
    if lenH > lenX {
      newLen := PowerOfTwo(lenH);
    } else {
      newLen := PowerOfTwo(lenX);
    }
    newLen := newLen * 2;
    PaddedLengthFits(lenH, lenX);
    hPad := PadArray(h, newLen);
    xPad := PadArray(x, newLen);
  }

  /** The length computation with padding by zeros, as the routines need. */
  method ZeroPadInputs(h: array<Complex>, lenH: int, x: array<Complex>, lenX: int)
    returns (hPad: array<Complex>, xPad: array<Complex>, newLen: int)
    requires 0 <= lenH <= h.Length && 0 <= lenX <= x.Length
    ensures newLen == PaddedLength(lenH, lenX) && IsPow2(newLen) && 2 <= newLen && lenH + lenX - 1 < newLen
    ensures fresh(hPad) && hPad.Length == newLen && fresh(xPad) && xPad.Length == newLen
    ensures hPad[..lenH] == h[..lenH] && xPad[..lenX] == x[..lenX]
    ensures forall i :: lenH <= i < newLen ==> hPad[i] == Zero
    ensures forall i :: lenX <= i < newLen ==> xPad[i] == Zero
  {
    if lenH > lenX {
      newLen := PowerOfTwo(lenH);
    } else {
      newLen := PowerOfTwo(lenX);
    }
    newLen := newLen * 2;
    PaddedLengthFits(lenH, lenX);
    hPad := ZeroPadArray(h, lenH, newLen);
    xPad := ZeroPadArray(x, lenX, newLen);
  }

  /** The transforms of the padded inputs and their pointwise product. */
  method ProductSpectrum(hPad: array<Complex>, xPad: array<Complex>, newLen: int,
                         conjugateH: bool, omega: Complex)
    returns (cy: array<Complex>)
    requires IsPow2(newLen) && hPad.Length == newLen && xPad.Length == newLen
    ensures fresh(cy) && cy[..] == Multiply(FftSpec(hPad[..], omega), FftSpec(xPad[..], omega), conjugateH)
  {
    assert hPad[..newLen] == hPad[..] && xPad[..newLen] == xPad[..];
    var hf := FFT(hPad, newLen, omega);
    var xf := FFT(xPad, newLen, omega);
    cy := MultiplySpectra(hf, xf, newLen, conjugateH);
  }

  /** Everything after the padding: the product of the spectra, the
      transform back and the rescaled real parts of the first lenY values. */
  method TransformPadded(hPad: array<Complex>, xPad: array<Complex>, newLen: int, lenY: int,
                         conjugateH: bool, omega: Complex, omegaInv: Complex)
    returns (y: array<real>)
    requires IsPow2(newLen) && hPad.Length == newLen && xPad.Length == newLen && 0 <= lenY <= newLen
    ensures fresh(y) && y[..] == Pipeline(hPad[..], xPad[..], lenY, conjugateH, omega, omegaInv)
  {
    var cy := ProductSpectrum(hPad, xPad, newLen, conjugateH, omega);
    ghost var spectrum := cy[..];
    assert cy[..newLen] == spectrum;
    cy := FFT(cy, newLen, omegaInv);
    assert cy[..] == cy[..newLen] == FftSpec(spectrum, omegaInv);
    y := RescaleReal(cy, lenY, newLen);
  }

  /** The body shared by `convolveFFT` and `correlateFFT`, which differ only
      in the conjugation of the filter's spectrum. */
  method TransformPipeline(h: array<Complex>, lenH: int, x: array<Complex>, lenX: int,
                           conjugateH: bool, omega: Complex, omegaInv: Complex)
    returns (y: array<real>, ghost hp: seq<Complex>, ghost xp: seq<Complex>)
    requires 1 <= lenH + lenX
    ensures |hp| == PaddedLength(lenH, lenX) && |xp| == |hp|
    ensures forall i :: 0 <= i < h.Length && i < |hp| ==> hp[i] == h[i]
    ensures forall i :: 0 <= i < x.Length && i < |xp| ==> xp[i] == x[i]
    ensures fresh(y) && y.Length == lenH + lenX - 1
    ensures IsPow2(|hp|) && y[..] == Pipeline(hp, xp, lenH + lenX - 1, conjugateH, omega, omegaInv)
  {
    var hPad, xPad, newLen := PadInputs(h, lenH, x, lenX);
    hp, xp := hPad[..], xPad[..];
    y := TransformPadded(hPad, xPad, newLen, lenH + lenX - 1, conjugateH, omega, omegaInv);
  }

  /** sigprocess.c `convolveFFT`: lenH + lenX - 1 values, the real parts of
      the inverse transform of the product of the padded inputs' spectra,
      divided by the padded length. */
  method ConvolveFFT(h: array<Complex>, lenH: int, x: array<Complex>, lenX: int,
                     omega: Complex, omegaInv: Complex)
    returns (y: array<real>, ghost hp: seq<Complex>, ghost xp: seq<Complex>)
    requires 1 <= lenH + lenX
    ensures |hp| == PaddedLength(lenH, lenX) && |xp| == |hp|
    ensures forall i :: 0 <= i < h.Length && i < |hp| ==> hp[i] == h[i]
    ensures forall i :: 0 <= i < x.Length && i < |xp| ==> xp[i] == x[i]
    ensures fresh(y) && y.Length == lenH + lenX - 1
    ensures IsPow2(|hp|) && y[..] == ConvolveSpec(hp, xp, lenH + lenX - 1, omega, omegaInv)
  {
    y, hp, xp := TransformPipeline(h, lenH, x, lenX, false, omega, omegaInv);
  }

  /** sigprocess.c `correlateFFT`: as ConvolveFFT, with the filter's
      spectrum conjugated before the product. */
  method CorrelateFFT(h: array<Complex>, lenH: int, x: array<Complex>, lenX: int,
                      omega: Complex, omegaInv: Complex)
    returns (y: array<real>, ghost hp: seq<Complex>, ghost xp: seq<Complex>)
    requires 1 <= lenH + lenX
    ensures |hp| == PaddedLength(lenH, lenX) && |xp| == |hp|
    ensures forall i :: 0 <= i < h.Length && i < |hp| ==> hp[i] == h[i]
    ensures forall i :: 0 <= i < x.Length && i < |xp| ==> xp[i] == x[i]
    ensures fresh(y) && y.Length == lenH + lenX - 1
    ensures IsPow2(|hp|) && y[..] == CorrelateSpec(hp, xp, lenH + lenX - 1, omega, omegaInv)
  {
    y, hp, xp := TransformPipeline(h, lenH, x, lenX, true, omega, omegaInv);
  }

  /** `convolveFFT` with the padding zeroed: the linear convolution of
      h[..lenH] and x[..lenX]. */
  method ConvolveFFTZeroPadded(h: array<Complex>, lenH: int, x: array<Complex>, lenX: int,
                               omega: Complex, omegaInv: Complex)
    returns (y: array<real>)
    requires 0 <= lenH <= h.Length && 0 <= lenX <= x.Length && 1 <= lenH + lenX
    requires PrimitiveRoot(omega, PaddedLength(lenH, lenX)) && Mul(omega, omegaInv) == One
    ensures fresh(y) && y[..] == RealParts(LinearConvolution(h[..lenH], x[..lenX]))
  {
    var hPad, xPad, newLen := ZeroPadInputs(h, lenH, x, lenX);
    y := TransformPadded(hPad, xPad, newLen, lenH + lenX - 1, false, omega, omegaInv);
    assert hPad[..][..lenH] == h[..lenH] && xPad[..][..lenX] == x[..lenX];
    ConvolveIsLinear(hPad[..], xPad[..], lenH, lenX, omega, omegaInv);
  }

  /** `correlateFFT` with the padding zeroed: the correlation of h[..lenH]
      with x[..lenX] at the lags CorrelationLags lists. */
  method CorrelateFFTZeroPadded(h: array<Complex>, lenH: int, x: array<Complex>, lenX: int,
                                omega: Complex, omegaInv: Complex)
    returns (y: array<real>)
    requires 0 <= lenH <= h.Length && 0 <= lenX <= x.Length && 1 <= lenH + lenX
    requires PrimitiveRoot(omega, PaddedLength(lenH, lenX))
    requires Mul(omega, omegaInv) == One && Conj(omega) == omegaInv
    ensures fresh(y) && y[..] == CorrelationLags(h[..lenH], x[..lenX], PaddedLength(lenH, lenX))
  {
    var hPad, xPad, newLen := ZeroPadInputs(h, lenH, x, lenX);
    y := TransformPadded(hPad, xPad, newLen, lenH + lenX - 1, true, omega, omegaInv);
    assert hPad[..][..lenH] == h[..lenH] && xPad[..][..lenX] == x[..lenX];
    CorrelateIsLinear(hPad[..], xPad[..], lenH, lenX, omega, omegaInv);
  }

  // ---------------------------------------------------------------------
  // What the pipeline computes

  /** With a primitive root, both transforms of the pipeline are discrete
      Fourier transforms. */
  lemma PipelineIsDft(hp: seq<Complex>, xp: seq<Complex>, len: nat, conjugateH: bool,
                      omega: Complex, omegaInv: Complex)
    requires IsPow2(|hp|) && 2 <= |hp| && |xp| == |hp| && len <= |hp|
    requires PrimitiveRoot(omega, |hp|) && Mul(omega, omegaInv) == One
    ensures Pipeline(hp, xp, len, conjugateH, omega, omegaInv)
         == Rescale(Dft(Multiply(Dft(hp, omega), Dft(xp, omega), conjugateH), omegaInv), len, |hp|)
  {
    FftIsDft(hp, omega);
    FftIsDft(xp, omega);
    InverseIsRoot(omega, omegaInv, |hp|);
    FftIsDft(Multiply(Dft(hp, omega), Dft(xp, omega), conjugateH), omegaInv);
  }

  /** Dividing the real part of n c by n gives the real part of c. */
  lemma RescaleScaled(c: Complex, n: nat)
    requires 0 < n
    ensures Mul(OfReal(n as real), c).re / n as real == c.re
  {
    assert Mul(OfReal(n as real), c).re == n as real * c.re;
  }

  /** `convolveFFT` on padded inputs is the cyclic convolution of the
      padded inputs. */
  lemma ConvolveIsCyclic(hp: seq<Complex>, xp: seq<Complex>, len: nat, omega: Complex, omegaInv: Complex)
    requires IsPow2(|hp|) && 2 <= |hp| && |xp| == |hp| && len <= |hp|
    requires PrimitiveRoot(omega, |hp|) && Mul(omega, omegaInv) == One
    ensures forall m :: 0 <= m < len ==>
              ConvolveSpec(hp, xp, len, omega, omegaInv)[m] == Sigma2(|hp|, |xp|, ConvTerms(hp, xp, m)).re
  {
    PipelineIsDft(hp, xp, len, false, omega, omegaInv);
    forall m | 0 <= m < len
      ensures ConvolveSpec(hp, xp, len, omega, omegaInv)[m] == Sigma2(|hp|, |xp|, ConvTerms(hp, xp, m)).re
    {
      ConvolutionTheorem(hp, xp, omega, omegaInv, m);
      RescaleScaled(Sigma2(|hp|, |xp|, ConvTerms(hp, xp, m)), |hp|);
    }
  }

  /** `correlateFFT` on padded inputs is the cyclic correlation of the
      padded inputs. */
  lemma CorrelateIsCyclic(hp: seq<Complex>, xp: seq<Complex>, len: nat, omega: Complex, omegaInv: Complex)
    requires IsPow2(|hp|) && 2 <= |hp| && |xp| == |hp| && len <= |hp|
    requires PrimitiveRoot(omega, |hp|) && Mul(omega, omegaInv) == One && Conj(omega) == omegaInv
    ensures forall m :: 0 <= m < len ==>
              CorrelateSpec(hp, xp, len, omega, omegaInv)[m] == Sigma2(|hp|, |xp|, CorrTerms(hp, xp, m)).re
  {
    PipelineIsDft(hp, xp, len, true, omega, omegaInv);
    forall m | 0 <= m < len
      ensures CorrelateSpec(hp, xp, len, omega, omegaInv)[m] == Sigma2(|hp|, |xp|, CorrTerms(hp, xp, m)).re
    {
      CorrelationTheorem(hp, xp, omega, omegaInv, m);
      RescaleScaled(Sigma2(|hp|, |xp|, CorrTerms(hp, xp, m)), |hp|);
    }
  }

  /** One term of ConvTermsLinear. */
  lemma ConvTermLinear(hp: seq<Complex>, xp: seq<Complex>, lenH: nat, lenX: nat, m: nat, j: nat, l: nat)
    requires |xp| == |hp| && lenH <= |hp| && lenX <= |xp| && lenH + lenX - 1 < |hp|
    requires j < |hp| && l < |xp|
    requires forall i :: lenH <= i < |hp| ==> hp[i] == Zero
    requires forall i :: lenX <= i < |xp| ==> xp[i] == Zero
    ensures ConvTerms(hp, xp, m)(j, l) == LinearConvTerms(hp[..lenH], xp[..lenX], m)(j, l)
  {
    if j < lenH && l < lenX {
      assert j + l != m + |hp|;
      assert hp[..lenH][j] == hp[j] && xp[..lenX][l] == xp[l];
    } else if lenH <= j {
      MulZero(xp[l]);
    } else {
      MulZero(hp[j]);
    }
  }

  /** With zeros after the first lenH and lenX entries and room for every
      sum j + l, the cyclic convolution is the linear one. */
  lemma ConvTermsLinear(hp: seq<Complex>, xp: seq<Complex>, lenH: nat, lenX: nat, m: nat)
    requires |xp| == |hp| && lenH <= |hp| && lenX <= |xp| && lenH + lenX - 1 < |hp|
    requires forall i :: lenH <= i < |hp| ==> hp[i] == Zero
    requires forall i :: lenX <= i < |xp| ==> xp[i] == Zero
    ensures Sigma2(|hp|, |xp|, ConvTerms(hp, xp, m))
         == Sigma2(lenH, lenX, LinearConvTerms(hp[..lenH], xp[..lenX], m))
  {
    var n := |hp|;
    var f := LinearConvTerms(hp[..lenH], xp[..lenX], m);
    forall j: nat, l: nat | j < n && l < n
      ensures ConvTerms(hp, xp, m)(j, l) == f(j, l)
    {
      ConvTermLinear(hp, xp, lenH, lenX, m, j, l);
    }
    Sigma2Ext(n, n, ConvTerms(hp, xp, m), f);
    Sigma2Tail(n, n, lenH, lenX, f);
  }

  /** One term of CorrTermsLinear. */
  lemma CorrTermLinear(hp: seq<Complex>, xp: seq<Complex>, lenH: nat, lenX: nat, m: nat, j: nat, l: nat)
    requires |xp| == |hp| && lenH <= |hp| && lenX <= |xp| && lenH + lenX - 1 < |hp| && m < |hp|
    requires j < |hp| && l < |xp|
    requires forall i :: lenH <= i < |hp| ==> hp[i] == Zero
    requires forall i :: lenX <= i < |xp| ==> xp[i] == Zero
    ensures CorrTerms(hp, xp, m)(j, l) == LinearCorrTerms(hp[..lenH], xp[..lenX], Lag(m, lenX, |hp|))(j, l)
  {
    if j < lenH && l < lenX {
      if m < lenX {
        assert l + |hp| != j + m;
      } else {
        assert l != j + m;
      }
      assert hp[..lenH][j] == hp[j] && xp[..lenX][l] == xp[l];
    } else if lenH <= j {
      assert Conj(hp[j]) == Zero;
      MulZero(xp[l]);
    } else {
      MulZero(Conj(hp[j]));
    }
  }

  /** With zeros after the first lenH and lenX entries, the cyclic
      correlation at m is the linear one at the lag Lag(m, lenX, n). */
  lemma CorrTermsLinear(hp: seq<Complex>, xp: seq<Complex>, lenH: nat, lenX: nat, m: nat)
    requires |xp| == |hp| && lenH <= |hp| && lenX <= |xp| && lenH + lenX - 1 < |hp| && m < |hp|
    requires forall i :: lenH <= i < |hp| ==> hp[i] == Zero
    requires forall i :: lenX <= i < |xp| ==> xp[i] == Zero
    ensures Sigma2(|hp|, |xp|, CorrTerms(hp, xp, m))
         == CrossCorrelation(hp[..lenH], xp[..lenX], Lag(m, lenX, |hp|))
  {
    var n := |hp|;
    var f := LinearCorrTerms(hp[..lenH], xp[..lenX], Lag(m, lenX, n));
    forall j: nat, l: nat | j < n && l < n
      ensures CorrTerms(hp, xp, m)(j, l) == f(j, l)
    {
      CorrTermLinear(hp, xp, lenH, lenX, m, j, l);
    }
    Sigma2Ext(n, n, CorrTerms(hp, xp, m), f);
    Sigma2Tail(n, n, lenH, lenX, f);
  }

  /** The convolution theorem for `convolveFFT`: with zero padding its
      lenH + lenX - 1 values are the linear convolution of the inputs. */
  lemma ConvolveIsLinear(hp: seq<Complex>, xp: seq<Complex>, lenH: nat, lenX: nat,
                         omega: Complex, omegaInv: Complex)
    requires |hp| == PaddedLength(lenH, lenX) && |xp| == |hp| && 1 <= lenH + lenX
    requires PrimitiveRoot(omega, |hp|) && Mul(omega, omegaInv) == One
    requires forall i :: lenH <= i < |hp| ==> hp[i] == Zero
    requires forall i :: lenX <= i < |xp| ==> xp[i] == Zero
    ensures IsPow2(|hp|) && lenH <= |hp| && lenX <= |xp|
    ensures ConvolveSpec(hp, xp, lenH + lenX - 1, omega, omegaInv)
         == RealParts(LinearConvolution(hp[..lenH], xp[..lenX]))
  {
    PaddedLengthFits(lenH, lenX);
    var len := lenH + lenX - 1;
    ConvolveIsCyclic(hp, xp, len, omega, omegaInv);
    forall m | 0 <= m < len
      ensures ConvolveSpec(hp, xp, len, omega, omegaInv)[m]
           == RealParts(LinearConvolution(hp[..lenH], xp[..lenX]))[m]
    {
      ConvTermsLinear(hp, xp, lenH, lenX, m);
    }
  }

  /** The correlation theorem for `correlateFFT`: with zero padding its
      values are the correlation of the inputs at lags 0 .. lenX - 1, then
      at the wrapped negative lags. */
  lemma CorrelateIsLinear(hp: seq<Complex>, xp: seq<Complex>, lenH: nat, lenX: nat,
                          omega: Complex, omegaInv: Complex)
    requires |hp| == PaddedLength(lenH, lenX) && |xp| == |hp| && 1 <= lenH + lenX
    requires PrimitiveRoot(omega, |hp|) && Mul(omega, omegaInv) == One && Conj(omega) == omegaInv
    requires forall i :: lenH <= i < |hp| ==> hp[i] == Zero
    requires forall i :: lenX <= i < |xp| ==> xp[i] == Zero
    ensures IsPow2(|hp|) && lenH <= |hp| && lenX <= |xp|
    ensures CorrelateSpec(hp, xp, lenH + lenX - 1, omega, omegaInv)
         == CorrelationLags(hp[..lenH], xp[..lenX], |hp|)
  {
    PaddedLengthFits(lenH, lenX);
    var len := lenH + lenX - 1;
    CorrelateIsCyclic(hp, xp, len, omega, omegaInv);
    forall m | 0 <= m < len
      ensures CorrelateSpec(hp, xp, len, omega, omegaInv)[m]
           == CorrelationLags(hp[..lenH], xp[..lenX], |hp|)[m]
    {
      CorrTermsLinear(hp, xp, lenH, lenX, m);
    }
  }

  /** From index lenX on, `correlateFFT` returns negative lags between
      lenX - new_len and -2: lag -1 is never among its outputs. */
  lemma WrappedLags(lenH: int, lenX: int, m: nat)
    requires 0 <= lenX <= m < lenH + lenX - 1
    ensures lenX - PaddedLength(lenH, lenX) <= Lag(m, lenX, PaddedLength(lenH, lenX)) <= -2
  {
    PaddedLengthFits(lenH, lenX);
  }

  /** At a lag of -|h| or below no term of the correlation is left, so an
      output that holds such a lag is 0 whatever the inputs. */
  lemma CorrelationBeyondTemplate(h: seq<Complex>, x: seq<Complex>, q: int)
    requires q <= -|h|
    ensures CrossCorrelation(h, x, q) == Zero
  {
    Sigma2Tail(|h|, |x|, 0, 0, LinearCorrTerms(h, x, q));
  }

  // ---------------------------------------------------------------------
  // The padding as written

  /** r + r + ... + r, n times. */
  function Repeated(n: nat, r: real): real
  {
    if n == 0 then 0.0 else Repeated(n - 1, r) + r
  }

  /** Repeated addition is multiplication. */
  lemma {:induction false} RepeatedIsProduct(n: nat, r: real)
    ensures Repeated(n, r) == n as real * r
  {
    if n > 0 {
      RepeatedIsProduct(n - 1, r);
      assert (n - 1) as real * r + r == n as real * r;
    }
  }

  /** Two or more copies of a nonzero r do not add up to r. */
  lemma RepeatedNotSingle(n: nat, r: real)
    requires 2 <= n && r != 0.0
    ensures Repeated(n, r) != r
  {
    RepeatedIsProduct(n - 1, r);
    assert (n - 1) as real * r != 0.0;
  }

  /** The real part of a sum of n equal terms. */
  lemma {:induction false} SigmaConstantRe(n: nat, f: nat -> Complex, p: Complex)
    requires forall i: nat :: i < n ==> f(i) == p
    ensures Sigma(n, f).re == Repeated(n, p.re)
  {
    if n > 0 {
      SigmaConstantRe(n - 1, f, p);
    }
  }

  /** A double sum whose n rows each sum to p has real part n p.re. */
  lemma ConstantRowsSum(n: nat, f: (nat, nat) -> Complex, p: Complex)
    requires forall j: nat :: j < n ==> RowSums(n, f)(j) == p
    ensures Sigma2(n, n, f).re == Repeated(n, p.re)
  {
    SigmaConstantRe(n, RowSums(n, f), p);
  }

  /** Row j of the cyclic self-convolution of a constant sequence at 0 has
      the single term c c, at l == (n - j) mod n. */
  lemma ConstantRow(hp: seq<Complex>, j: nat)
    requires 2 <= |hp| && j < |hp|
    requires forall i :: 0 <= i < |hp| ==> hp[i] == hp[0]
    ensures RowSums(|hp|, ConvTerms(hp, hp, 0))(j) == Mul(hp[0], hp[0])
  {
    var f := ConvTerms(hp, hp, 0);
    var l0 := if j == 0 then 0 else |hp| - j;
    assert f(j, l0) == Mul(hp[0], hp[0]);
    SigmaSingle(|hp|, l0, Row(f, j));
  }

  /** Every row of output 0 of the cyclic self-convolution of a constant
      sequence c sums to c c. */
  lemma ConstantRows(hp: seq<Complex>, p: Complex)
    requires 2 <= |hp| && p == Mul(hp[0], hp[0])
    requires forall i :: 0 <= i < |hp| ==> hp[i] == hp[0]
    ensures forall j: nat :: j < |hp| ==> RowSums(|hp|, ConvTerms(hp, hp, 0))(j) == p
  {
    forall j: nat | j < |hp|
      ensures RowSums(|hp|, ConvTerms(hp, hp, 0))(j) == p
    {
      ConstantRow(hp, j);
    }
  }

  /** Output 0 of the cyclic self-convolution of a constant sequence c: n
      times c c. */
  lemma ConstantCyclicSum(hp: seq<Complex>, p: Complex)
    requires 2 <= |hp| && p == Mul(hp[0], hp[0])
    requires forall i :: 0 <= i < |hp| ==> hp[i] == hp[0]
    ensures Sigma2(|hp|, |hp|, ConvTerms(hp, hp, 0)).re == Repeated(|hp|, p.re)
  {
    ConstantRows(hp, p);
    ConstantRowsSum(|hp|, ConvTerms(hp, hp, 0), p);
  }

  /** The convolution of [c] with itself, for c the first element of hp:
      c c. */
  lemma SingleLinearSum(hp: seq<Complex>)
    requires 1 <= |hp|
    ensures LinearConvolution(hp[..1], hp[..1])[0] == Mul(hp[0], hp[0])
  {
    var h := hp[..1];
    var g := LinearConvTerms(h, h, 0);
    assert g(0, 0) == Mul(hp[0], hp[0]);
    assert Sigma2(1, 1, g) == Add(Zero, Add(Zero, Mul(hp[0], hp[0])));
  }

  /** What `padArray` leaves in the padding reaches the result. Take
      one-element inputs h = x = [c]: ConvolveFFT only promises hp[0] == c
      and xp[0] == c. If the realloc'd elements after it hold c as well,
      output 0 is n times c c for every padded length n, where the
      convolution of [c] with [c] is c c: for c = 1 and n = 2, 2 instead of
      1. */
  lemma UnzeroedPadding(hp: seq<Complex>, omega: Complex, omegaInv: Complex)
    requires IsPow2(|hp|) && 2 <= |hp| && PrimitiveRoot(omega, |hp|) && Mul(omega, omegaInv) == One
    requires forall i :: 0 <= i < |hp| ==> hp[i] == hp[0]
    ensures ConvolveSpec(hp, hp, 1, omega, omegaInv)[0] == Repeated(|hp|, Mul(hp[0], hp[0]).re)
    ensures LinearConvolution(hp[..1], hp[..1])[0].re == Mul(hp[0], hp[0]).re
    ensures Mul(hp[0], hp[0]).re != 0.0 ==>
              ConvolveSpec(hp, hp, 1, omega, omegaInv)[0] != LinearConvolution(hp[..1], hp[..1])[0].re
  {
    var p := Mul(hp[0], hp[0]);
    ConvolveIsCyclic(hp, hp, 1, omega, omegaInv);
    ConstantCyclicSum(hp, p);
    SingleLinearSum(hp);
    if p.re != 0.0 {
      RepeatedNotSingle(|hp|, p.re);
    }
  }

  // ---------------------------------------------------------------------
  // Properties of the pipeline

  /** Convolution is symmetric in its two inputs. */
  lemma ConvolveCommutes(hp: seq<Complex>, xp: seq<Complex>, len: nat, omega: Complex, omegaInv: Complex)
    requires IsPow2(|hp|) && |xp| == |hp| && len <= |hp|
    ensures ConvolveSpec(hp, xp, len, omega, omegaInv) == ConvolveSpec(xp, hp, len, omega, omegaInv)
  {
    var a, b := FftSpec(hp, omega), FftSpec(xp, omega);
    forall i | 0 <= i < |a|
      ensures Multiply(a, b, false)[i] == Multiply(b, a, false)[i]
    {
      MulComm(a[i], b[i]);
    }
    assert Multiply(a, b, false) == Multiply(b, a, false);
  }
}
