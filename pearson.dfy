/** The windowed Pearson correlator of sigprocess.c (`pearsonCorrelator`).
    The filter h (lenH values) slides over the signal x (lenX values); for
    each of the lenX - lenH + 1 offsets d the C accumulates, over the window
    x[d .. d + lenH), the squared deviations of the window from its mean,
    the squared deviations of h from its mean, and a cross term, and divides
    cor[d] minus the cross term by the product of the square roots of the
    two sums of squares. cor is the correlation of h with x, which the C
    obtains from `correlateFFT`: PearsonCorrelator takes it as an input
    sequence, and PearsonCorrelatorZeroPadded computes it with the
    zero-padded correlation of Convolution first. The square roots and the
    final division are floating point and are not modelled: each output is
    the triple (numerator, sum of squares of the window, sum of squares of
    h) it is computed from. */
module Pearson {
  import opened Complex
  import opened Util
  import opened Sums
  import opened DiscreteFourier
  import opened Spectral
  import opened Convolution

  /** The parts of one output: y[d] == num / (sqrt(sumX) * sqrt(sumH)). */
  datatype Coefficient = Coefficient(num: real, sumX: real, sumH: real)

  // ---------------------------------------------------------------------
  // The sums

  /** `pow(r, 2)`. */
  function Squared(r: real): real {
    r * r
  }

  /** The squared deviations (s[i] - m)^2. */
  function Squares(s: seq<real>, m: real): (q: seq<real>)
    ensures |q| == |s|
  {
    seq(|s|, i requires 0 <= i < |s| => Squared(s[i] - m))
  }

  /** One term of the C's `sum_num`. */
  function CrossTerm(xv: real, hv: real, xBar: real, hBar: real): real {
    xv * hBar + xBar * hv - xBar * hBar
  }

  /** The terms the C subtracts from cor[d]:
      x[i + d] * hBar + xBar * h[i] - xBar * hBar. */
  function CrossTerms(xs: seq<real>, hs: seq<real>, xBar: real, hBar: real): (t: seq<real>)
    requires |xs| == |hs|
    ensures |t| == |hs|
  {
    seq(|hs|, i requires 0 <= i < |hs| => CrossTerm(xs[i], hs[i], xBar, hBar))
  }

  /** The terms x[i + d] * h[i] of the correlation at offset d. */
  function Products(xs: seq<real>, hs: seq<real>): (t: seq<real>)
    requires |xs| == |hs|
    ensures |t| == |hs|
  {
    seq(|hs|, i requires 0 <= i < |hs| => xs[i] * hs[i])
  }

  /** The terms (x[i + d] - xBar) * (h[i] - hBar) of the covariance. */
  function Deviations(xs: seq<real>, hs: seq<real>, xBar: real, hBar: real): (t: seq<real>)
    requires |xs| == |hs|
    ensures |t| == |hs|
  {
    seq(|hs|, i requires 0 <= i < |hs| => (xs[i] - xBar) * (hs[i] - hBar))
  }

  /** Output d for the filter hs, the signal xs and the correlation cor. */
  function CoefficientAt(hs: seq<real>, xs: seq<real>, cor: seq<real>, d: nat): Coefficient
    requires 0 < |hs| && d + |hs| <= |xs| && d < |cor|
  {
    var window := xs[d..d + |hs|];
    var hBar, xBar := Mean(hs), Mean(window);
    Coefficient(cor[d] - Sum(CrossTerms(window, hs, xBar, hBar)),
                Sum(Squares(window, xBar)), Sum(Squares(hs, hBar)))
  }

  /** All outputs: one per offset d with d + |hs| <= |xs|. */
  function PearsonSpec(hs: seq<real>, xs: seq<real>, cor: seq<real>): (y: seq<Coefficient>)
    requires 0 < |hs| <= |xs| + 1 && |xs| - |hs| + 1 <= |cor|
    ensures |y| == |xs| - |hs| + 1
  {
    seq(|xs| - |hs| + 1, d requires 0 <= d < |xs| - |hs| + 1 => CoefficientAt(hs, xs, cor, d))
  }

  // ---------------------------------------------------------------------
  // The C routine

  /** Adding the next term to a prefix sum. */
  lemma SumPrefixStep(s: seq<real>, i: nat)
    requires i < |s|
    ensures Sum(s[..i + 1]) == Sum(s[..i]) + s[i]
  {
    assert s[..i + 1][..i] == s[..i];
  }

  /** The inner loop over the window at offset d: the three sums, in the
      order the C accumulates them. */
  method WindowSums(h: array<real>, lenH: int, x: array<real>, d: int, xBar: real, hBar: real)
    returns (sumX: real, sumH: real, sumNum: real)
    requires 0 <= lenH <= h.Length && 0 <= d && d + lenH <= x.Length
    ensures sumX == Sum(Squares(x[d..d + lenH], xBar))
    ensures sumH == Sum(Squares(h[..lenH], hBar))
    ensures sumNum == Sum(CrossTerms(x[d..d + lenH], h[..lenH], xBar, hBar))
  {
    ghost var window, hs := x[d..d + lenH], h[..lenH];
    ghost var qx, qh, t := Squares(window, xBar), Squares(hs, hBar), CrossTerms(window, hs, xBar, hBar);
    sumX, sumH, sumNum := 0.0, 0.0, 0.0;
    var i := 0;
    while i < lenH
      invariant 0 <= i <= lenH
      invariant sumX == Sum(qx[..i]) && sumH == Sum(qh[..i]) && sumNum == Sum(t[..i])
    {
      SumPrefixStep(qx, i);
      SumPrefixStep(qh, i);
      SumPrefixStep(t, i);
      assert x[i + d] == window[i] && h[i] == hs[i];
      sumX := sumX + Squared(x[i + d] - xBar);
      sumH := sumH + Squared(h[i] - hBar);
      sumNum := sumNum + CrossTerm(x[i + d], h[i], xBar, hBar);
      i := i + 1;
    }
    assert qx[..lenH] == qx && qh[..lenH] == qh && t[..lenH] == t;
  }

  /** The body of the outer loop: output d from the window mean, the three
      sums and cor[d]. */
  method CoefficientOf(h: array<real>, lenH: int, x: array<real>, lenX: int, cor: seq<real>,
                       hBar: real, d: int)
    returns (c: Coefficient)
    requires 0 < lenH <= h.Length && lenX <= x.Length && 0 <= d && d + lenH <= lenX && d < |cor|
    requires hBar == Mean(h[..lenH])
    ensures c == CoefficientAt(h[..lenH], x[..lenX], cor, d)
  {
    var xBar := GetXBar(x, lenX, lenH, d);
    var sumX, sumH, sumNum := WindowSums(h, lenH, x, d, xBar, hBar);
    assert x[..lenX][d..d + lenH] == x[d..d + lenH];
    c := Coefficient(cor[d] - sumNum, sumX, sumH);
  }

  /** sigprocess.c `pearsonCorrelator` after its call to `correlateFFT`,
      whose result is cor: lenX - lenH + 1 outputs, output d computed from
      the window x[d .. d + lenH) alone, so only x[..lenX] is read. */
  method PearsonCorrelator(h: array<real>, lenH: int, x: array<real>, lenX: int, cor: seq<real>)
    returns (y: array<Coefficient>)
    requires 0 < lenH <= h.Length && lenX <= x.Length && lenH - 1 <= lenX
    requires |cor| == lenH + lenX - 1
    ensures fresh(y) && y[..] == PearsonSpec(h[..lenH], x[..lenX], cor)
  {
    var lenY := lenX - lenH + 1;
    y := new Coefficient[lenY](_ => Coefficient(0.0, 0.0, 0.0));
    var hBar := Average(h, lenH);
    var d := 0;
    while d < lenY
      invariant 0 <= d <= lenY
      invariant forall k :: 0 <= k < d ==> y[k] == CoefficientAt(h[..lenH], x[..lenX], cor, k)
    {
      y[d] := CoefficientOf(h, lenH, x, lenX, cor, hBar, d);
      d := d + 1;
    }
  }

  // ---------------------------------------------------------------------
  // Sums of terms

  lemma {:induction false} SumDifference(a: seq<real>, b: seq<real>, c: seq<real>)
    requires |a| == |b| == |c|
    requires forall i :: 0 <= i < |c| ==> c[i] == a[i] - b[i]
    ensures Sum(c) == Sum(a) - Sum(b)
  {
    if |c| > 0 {
      var n := |c| - 1;
      SumDifference(a[..n], b[..n], c[..n]);
    }
  }

  lemma {:induction false} SumNonNegative(s: seq<real>)
    requires forall i :: 0 <= i < |s| ==> 0.0 <= s[i]
    ensures 0.0 <= Sum(s)
  {
    if |s| > 0 {
      SumNonNegative(s[..|s| - 1]);
    }
  }

  // ---------------------------------------------------------------------
  // Properties of the outputs

  /** sum_x and sum_h are sums of squares, never negative. */
  lemma SquaresNonNegative(s: seq<real>, m: real)
    ensures 0.0 <= Sum(Squares(s, m))
  {
    var q := Squares(s, m);
    forall i | 0 <= i < |s|
      ensures 0.0 <= q[i]
    {
      var r := s[i] - m;
      assert 0.0 <= r * r;
    }
    SumNonNegative(q);
  }

  /** On a constant window the sum of squares about the mean is zero, and
      the C divides by zero. */
  lemma FlatWindow(s: seq<real>)
    requires 0 < |s|
    requires forall i :: 0 <= i < |s| ==> s[i] == s[0]
    ensures Sum(Squares(s, Mean(s))) == 0.0
  {
    MeanConstant(s, s[0]);
    var q := Squares(s, Mean(s));
    assert forall i :: 0 <= i < |q| ==> q[i] == Squared(0.0) == 0.0;
    SumConstant(q, 0.0);
  }

  /** When cor[d] is the correlation sum of the window with h, the
      numerator is the covariance sum of the window and h about their
      means (about any xBar and hBar, in fact). */
  lemma NumeratorIsCovariance(xs: seq<real>, hs: seq<real>, xBar: real, hBar: real)
    requires |xs| == |hs|
    ensures Sum(Products(xs, hs)) - Sum(CrossTerms(xs, hs, xBar, hBar))
         == Sum(Deviations(xs, hs, xBar, hBar))
  {
    var p, t, v := Products(xs, hs), CrossTerms(xs, hs, xBar, hBar), Deviations(xs, hs, xBar, hBar);
    forall i | 0 <= i < |v|
      ensures v[i] == p[i] - t[i]
    {
      calc {
        v[i];
        (xs[i] - xBar) * (hs[i] - hBar);
        xs[i] * hs[i] - CrossTerm(xs[i], hs[i], xBar, hBar);
      }
    }
    SumDifference(p, t, v);
  }

  /** Every output's numerator is the covariance of its window with h when
      cor is the correlation of h with x. */
  lemma PearsonNumerators(hs: seq<real>, xs: seq<real>, cor: seq<real>)
    requires 0 < |hs| <= |xs| + 1 && |xs| - |hs| + 1 <= |cor|
    requires forall d :: 0 <= d <= |xs| - |hs| ==> cor[d] == Sum(Products(xs[d..d + |hs|], hs))
    ensures forall d :: 0 <= d < |xs| - |hs| + 1 ==>
              var window := xs[d..d + |hs|];
              PearsonSpec(hs, xs, cor)[d].num == Sum(Deviations(window, hs, Mean(window), Mean(hs)))
  {
    forall d | 0 <= d < |xs| - |hs| + 1
      ensures var window := xs[d..d + |hs|];
              PearsonSpec(hs, xs, cor)[d].num == Sum(Deviations(window, hs, Mean(window), Mean(hs)))
    {
      var window := xs[d..d + |hs|];
      NumeratorIsCovariance(window, hs, Mean(window), Mean(hs));
    }
  }

  // ---------------------------------------------------------------------
  // The correlation the C passes in

  /** The doubles as complex numbers with imaginary part 0, as util.c
      `doubleToComplex` makes them. */
  function OfReals(s: seq<real>): (c: seq<Complex>)
    ensures |c| == |s|
  {
    seq(|s|, i requires 0 <= i < |s| => OfReal(s[i]))
  }

  /** A complex sum whose terms have the real parts s[i] has real part
      Sum(s[..n]). */
  lemma {:induction false} SigmaReSum(n: nat, f: nat -> Complex, s: seq<real>)
    requires n <= |s|
    requires forall i: nat :: i < n ==> f(i).re == s[i]
    ensures Sigma(n, f).re == Sum(s[..n])
  {
    if n > 0 {
      SigmaReSum(n - 1, f, s);
      assert s[..n][..n - 1] == s[..n - 1];
    }
  }

  /** Row j of the correlation of real sequences at lag d has the single
      term x[d + j] h[j]. */
  lemma CorrelationRow(hs: seq<real>, xs: seq<real>, d: nat, j: nat)
    requires d + |hs| <= |xs| && j < |hs|
    ensures RowSums(|xs|, LinearCorrTerms(OfReals(hs), OfReals(xs), d))(j).re == xs[d + j] * hs[j]
  {
    var f := Row(LinearCorrTerms(OfReals(hs), OfReals(xs), d), j);
    SigmaSingle(|xs|, j + d, f);
    assert f(j + d) == Mul(Conj(OfReal(hs[j])), OfReal(xs[j + d]));
  }

  /** The correlation of real h with real x at lag d, for a window that
      lies inside x, is the sum of the products of the window with h. */
  lemma WindowCorrelation(hs: seq<real>, xs: seq<real>, d: nat)
    requires d + |hs| <= |xs|
    ensures CrossCorrelation(OfReals(hs), OfReals(xs), d).re == Sum(Products(xs[d..d + |hs|], hs))
  {
    var p := Products(xs[d..d + |hs|], hs);
    var rows := RowSums(|xs|, LinearCorrTerms(OfReals(hs), OfReals(xs), d));
    forall j: nat | j < |hs|
      ensures rows(j).re == p[j]
    {
      CorrelationRow(hs, xs, d, j);
    }
    SigmaReSum(|hs|, rows, p);
    assert p[..|hs|] == p;
  }

  /** The outputs of the zero-padded `correlateFFT` that the correlator
      reads, cor[0 .. lenX - lenH], are the window sums the numerators
      need: those outputs hold the non-negative lags. */
  lemma CorrelationNumerators(hs: seq<real>, xs: seq<real>, n: nat)
    requires 0 < |hs| <= |xs| + 1
    ensures forall d :: 0 <= d <= |xs| - |hs| ==>
              CorrelationLags(OfReals(hs), OfReals(xs), n)[d] == Sum(Products(xs[d..d + |hs|], hs))
  {
    forall d | 0 <= d <= |xs| - |hs|
      ensures CorrelationLags(OfReals(hs), OfReals(xs), n)[d] == Sum(Products(xs[d..d + |hs|], hs))
    {
      WindowCorrelation(hs, xs, d);
    }
  }

  /** With cor the zero-padded correlation of h with x, output d of the
      correlator is the covariance of the window x[d .. d + |h|) with h
      and the two sums of squares about the means: the Pearson
      coefficient before the square roots and the division. */
  lemma PearsonOfCorrelation(hs: seq<real>, xs: seq<real>, n: nat)
    requires 0 < |hs| <= |xs| + 1
    ensures forall d :: 0 <= d < |xs| - |hs| + 1 ==>
              var window := xs[d..d + |hs|];
              PearsonSpec(hs, xs, CorrelationLags(OfReals(hs), OfReals(xs), n))[d]
              == Coefficient(Sum(Deviations(window, hs, Mean(window), Mean(hs))),
                             Sum(Squares(window, Mean(window))), Sum(Squares(hs, Mean(hs))))
  {
    var cor := CorrelationLags(OfReals(hs), OfReals(xs), n);
    CorrelationNumerators(hs, xs, n);
    PearsonNumerators(hs, xs, cor);
  }

  /** sigprocess.c `pearsonCorrelator` with the conversion to complex
      numbers that its call to `correlateFFT` needs and with zero padding:
      the correlator's outputs for the correlation of h[..lenH] with
      x[..lenX] (their meaning is PearsonOfCorrelation). */
  method PearsonCorrelatorZeroPadded(h: array<real>, lenH: int, x: array<real>, lenX: int,
                                     omega: Complex, omegaInv: Complex)
    returns (y: array<Coefficient>)
    requires 0 < lenH <= h.Length && lenX <= x.Length && lenH - 1 <= lenX
    requires PrimitiveRoot(omega, PaddedLength(lenH, lenX))
    requires Mul(omega, omegaInv) == One && Conj(omega) == omegaInv
    ensures fresh(y)
    ensures y[..] == PearsonSpec(h[..lenH], x[..lenX],
                                 CorrelationLags(OfReals(h[..lenH]), OfReals(x[..lenX]), PaddedLength(lenH, lenX)))
  {
    var hc := DoubleToComplex(h, lenH);
    var xc := DoubleToComplex(x, lenX);
    assert hc[..lenH] == OfReals(h[..lenH]) && xc[..lenX] == OfReals(x[..lenX]);
    var cor := CorrelateFFTZeroPadded(hc, lenH, xc, lenX, omega, omegaInv);
    y := PearsonCorrelator(h, lenH, x, lenX, cor[..]);
  }
}
