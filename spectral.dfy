/** Why the pipeline of `convolveFFT` and `correlateFFT` computes a
    convolution and a correlation: the inverse transform of the product of
    two spectra is n times the cyclic convolution of the two sequences, and
    with the conjugated first spectrum n times their cyclic correlation.
    The transforms are the defining sums of DiscreteFourier; the inverse
    root omegaInv is any number with omega * omegaInv == 1 (and, for the
    correlation, the conjugate of omega, as cos - i sin is of cos + i sin). */
module Spectral {
  import opened Complex
  import opened Util
  import opened Sums
  import opened DiscreteFourier
  import opened Fft

  // ---------------------------------------------------------------------
  // Spectra and their products

  /** The pointwise product of two spectra; with conjugateA the first
      factor is conjugated, as in the correlation. */
  function Multiply(a: seq<Complex>, b: seq<Complex>, conjugateA: bool): (c: seq<Complex>)
    requires |a| == |b|
    ensures |c| == |a|
  {
    seq(|a|, i requires 0 <= i < |a| => Mul(if conjugateA then Conj(a[i]) else a[i], b[i]))
  }

  /** The termwise conjugate of a sequence. */
  function ConjSeq(a: seq<Complex>): (c: seq<Complex>)
    ensures |c| == |a|
  {
    seq(|a|, i requires 0 <= i < |a| => Conj(a[i]))
  }

  // ---------------------------------------------------------------------
  // The outputs the theorems name

  /** The terms of output m of the cyclic convolution of h and x: the
      products h[j] x[l] with j + l == m modulo the length. */
  function ConvTerms(h: seq<Complex>, x: seq<Complex>, m: nat): (nat, nat) -> Complex
  {
    (j: nat, l: nat) =>
      if j < |h| && l < |x| && (j + l == m || j + l == m + |h|) then Mul(h[j], x[l]) else Zero
  }

  /** The terms of output m of the cyclic correlation of h with x: the
      products conj(h[j]) x[l] with l == j + m modulo the length. */
  function CorrTerms(h: seq<Complex>, x: seq<Complex>, m: nat): (nat, nat) -> Complex
  {
    (j: nat, l: nat) =>
      if j < |h| && l < |x| && (l == j + m || l + |h| == j + m) then Mul(Conj(h[j]), x[l]) else Zero
  }

  /** The terms of output m of the linear convolution of h and x: the
      products h[j] x[l] with j + l == m. */
  function LinearConvTerms(h: seq<Complex>, x: seq<Complex>, m: nat): (nat, nat) -> Complex
  {
    (j: nat, l: nat) => if j < |h| && l < |x| && j + l == m then Mul(h[j], x[l]) else Zero
  }

  /** The terms of lag q of the linear correlation of h with x: the
      products conj(h[j]) x[l] with l - j == q. */
  function LinearCorrTerms(h: seq<Complex>, x: seq<Complex>, q: int): (nat, nat) -> Complex
  {
    (j: nat, l: nat) => if j < |h| && l < |x| && l - j == q then Mul(Conj(h[j]), x[l]) else Zero
  }

  /** The linear convolution: |h| + |x| - 1 outputs, output m the sum of
      h[j] x[l] over j + l == m. */
  function LinearConvolution(h: seq<Complex>, x: seq<Complex>): (y: seq<Complex>)
    requires 1 <= |h| + |x|
    ensures |y| == |h| + |x| - 1
  {
    seq(|h| + |x| - 1, m requires 0 <= m => Sigma2(|h|, |x|, LinearConvTerms(h, x, m)))
  }

  /** The linear correlation of h with x at lag q, positive or negative:
      the sum of conj(h[j]) x[j + q]. */
  function CrossCorrelation(h: seq<Complex>, x: seq<Complex>, q: int): Complex
  {
    Sigma2(|h|, |x|, LinearCorrTerms(h, x, q))
  }

  // ---------------------------------------------------------------------
  // Geometric sums of roots of unity

  /** k |-> u^k. */
  function Powers(u: Complex): nat -> Complex
  {
    (k: nat) => Pow(u, k)
  }

  /** 1 + u + ... + u^(a+b-1) is (1 + ... + u^(a-1)) + u^a (1 + ... + u^(b-1)). */
  lemma {:induction false} GeometricSplit(u: Complex, a: nat, b: nat)
    ensures Sigma(a + b, Powers(u)) == Add(Sigma(a, Powers(u)), Mul(Pow(u, a), Sigma(b, Powers(u))))
    decreases b
  {
    if b == 0 {
      MulZero(Pow(u, a));
    } else {
      GeometricSplit(u, a, b - 1);
      PowAdd(u, a, b - 1);
      MulAddRight(Pow(u, a), Sigma(b - 1, Powers(u)), Pow(u, b - 1));
    }
  }

  /** (omega^e)^(n/2) == (omega^(n/2))^e. */
  lemma RootPowerHalf(omega: Complex, n: nat, e: nat)
    ensures Pow(Pow(omega, e), n / 2) == Pow(Pow(omega, n / 2), e)
  {
    PowMul(omega, e, n / 2);
    PowMul(omega, n / 2, e);
    assert e * (n / 2) == (n / 2) * e;
  }

  /** (omega^e)^(n/2) is 1 for even e and -1 for odd e. */
  lemma HalfPower(omega: Complex, n: nat, e: nat)
    requires 2 <= n && PrimitiveRoot(omega, n)
    ensures Pow(Pow(omega, e), n / 2) == if e % 2 == 0 then One else MinusOne
  {
    RootPowerHalf(omega, n, e);
    assert Mul(MinusOne, MinusOne) == One;
    PowInvolution(Pow(omega, n / 2), e);
  }

  /** When u^m == -1 the 2m powers of u cancel in pairs. */
  lemma GeometricOdd(u: Complex, m: nat)
    requires Pow(u, m) == MinusOne
    ensures Sigma(2 * m, Powers(u)) == Zero
  {
    GeometricSplit(u, m, m);
    var s := Sigma(m, Powers(u));
    assert Add(s, Mul(MinusOne, s)) == Zero;
  }

  /** When u^m == 1 the second m powers of u repeat the first m. */
  lemma GeometricEven(u: Complex, m: nat)
    requires Pow(u, m) == One
    ensures Sigma(2 * m, Powers(u)) == Add(Sigma(m, Powers(u)), Sigma(m, Powers(u)))
  {
    GeometricSplit(u, m, m);
    var s := Sigma(m, Powers(u));
    assert Mul(One, s) == s;
  }

  /** An even power of omega is a power of omega^2. */
  lemma EvenPower(omega: Complex, e: nat)
    requires e % 2 == 0
    ensures Pow(omega, e) == Pow(Pow(omega, 2), e / 2)
  {
    PowMul(omega, 2, e / 2);
  }

  /** Twice the half-length count is the count. */
  lemma DoubleCount(n: nat, m: nat, e: nat, half: Complex, total: Complex)
    requires n == 2 * m && e % 2 == 0
    requires total == Add(half, half)
    requires half == if e / 2 == m || e / 2 == 2 * m then OfReal(m as real) else Zero
    ensures total == if e == n || e == 2 * n then OfReal(n as real) else Zero
  {
    if e == n || e == 2 * n {
      assert half == OfReal(m as real);
      assert m as real + m as real == n as real;
    } else {
      assert half == Zero;
    }
  }

  /** For even e the sum of n powers of omega^e is twice the sum of the
      first half of them. */
  lemma EvenHalves(omega: Complex, n: nat, m: nat, e: nat)
    requires 2 <= n && n == 2 * m && PrimitiveRoot(omega, n) && e % 2 == 0
    ensures Sigma(n, Powers(Pow(omega, e))) == Add(Sigma(m, Powers(Pow(omega, e))), Sigma(m, Powers(Pow(omega, e))))
  {
    HalfPower(omega, n, e);
    GeometricEven(Pow(omega, e), m);
  }

  /** The even case of orthogonality: omega^e is a power of omega^2, and
      the half-length sum is counted twice. */
  lemma OrthogonalityEven(omega: Complex, n: nat, m: nat, e: nat, half: Complex)
    requires 2 <= n && n == 2 * m && PrimitiveRoot(omega, n) && e % 2 == 0
    requires half == Sigma(m, Powers(Pow(Pow(omega, 2), e / 2)))
    requires half == if e / 2 == m || e / 2 == 2 * m then OfReal(m as real) else Zero
    ensures Sigma(n, Powers(Pow(omega, e))) == if e == n || e == 2 * n then OfReal(n as real) else Zero
  {
    EvenPower(omega, e);
    EvenHalves(omega, n, m, e);
    DoubleCount(n, m, e, half, Sigma(n, Powers(Pow(omega, e))));
  }

  /** The odd case of orthogonality: half a turn of omega^e flips the sign. */
  lemma OrthogonalityOdd(omega: Complex, n: nat, e: nat)
    requires 2 <= n && n % 2 == 0 && PrimitiveRoot(omega, n) && e % 2 == 1
    ensures Sigma(n, Powers(Pow(omega, e))) == if e == n || e == 2 * n then OfReal(n as real) else Zero
  {
    var m := n / 2;
    HalfPower(omega, n, e);
    GeometricOdd(Pow(omega, e), m);
  }

  /** The sum of a single power is 1. */
  lemma OrthogonalitySingle(u: Complex)
    ensures Sigma(1, Powers(u)) == OfReal(1 as real)
  {
    assert Sigma(1, Powers(u)) == Add(Zero, Pow(u, 0));
  }

  /** Orthogonality of the powers of a primitive n-th root omega: for
      0 < e < 3n the sum of (omega^e)^k over k < n is n when n divides e
      (e == n or e == 2n) and 0 otherwise. */
  lemma {:induction false} Orthogonality(omega: Complex, n: nat, e: nat)
    requires IsPow2(n) && PrimitiveRoot(omega, n) && 0 < e < 3 * n
    ensures Sigma(n, Powers(Pow(omega, e))) == if e == n || e == 2 * n then OfReal(n as real) else Zero
    decreases n
  {
    if n == 1 {
      OrthogonalitySingle(Pow(omega, e));
    } else {
      var m := n / 2;
      assert n == 2 * m;
      if e % 2 == 1 {
        OrthogonalityOdd(omega, n, e);
      } else {
        var w2 := Pow(omega, 2);
        assert IsPow2(m) && PrimitiveRoot(w2, m) by {
          SquareOfRoot(omega, n);
        }
        var half := Sigma(m, Powers(Pow(w2, e / 2)));
        assert half == if e / 2 == m || e / 2 == 2 * m then OfReal(m as real) else Zero by {
          Orthogonality(w2, m, e / 2);
        }
        OrthogonalityEven(omega, n, m, e, half);
      }
    }
  }

  /** omega^n == 1 and omega^(2n) == 1 for a primitive n-th root, n >= 2. */
  lemma RootPeriod(omega: Complex, n: nat)
    requires 2 <= n && n % 2 == 0 && PrimitiveRoot(omega, n)
    ensures Pow(omega, n) == One && Pow(omega, 2 * n) == One
  {
    PowAdd(omega, n / 2, n / 2);
    assert Mul(MinusOne, MinusOne) == One;
    PowAdd(omega, n, n);
    assert Mul(One, One) == One;
  }

  /** A power of the inverse root is a power of the root. */
  lemma InversePow(omega: Complex, omegaInv: Complex, p: nat, t: nat)
    requires Mul(omega, omegaInv) == One && Pow(omega, p) == One && t <= p
    ensures Pow(omegaInv, t) == Pow(omega, p - t)
  {
    var a, b, c := Pow(omega, p - t), Pow(omega, t), Pow(omegaInv, t);
    var one := Mul(omega, omegaInv);
    calc {
      c;
      { MulOne(c); }
      Mul(One, c);
      { PowAdd(omega, p - t, t); }
      Mul(Mul(a, b), c);
      { MulAssoc(a, b, c); }
      Mul(a, Mul(b, c));
      { PowOfMul(omega, omegaInv, t); }
      Mul(a, Pow(one, t));
      { PowUnit(one, t); }
      Mul(a, One);
      { MulOne(a); }
      a;
    }
  }

  /** The inverse of a primitive n-th root is one too: the transform back
      is a transform of the same length. */
  lemma InverseIsRoot(omega: Complex, omegaInv: Complex, n: nat)
    requires IsPow2(n) && 2 <= n && PrimitiveRoot(omega, n) && Mul(omega, omegaInv) == One
    ensures PrimitiveRoot(omegaInv, n)
  {
    RootPeriod(omega, n);
    InversePow(omega, omegaInv, n, n / 2);
  }

  // ---------------------------------------------------------------------
  // Expanding the transform of a product of transforms

  /** The terms a[j] v^j of the polynomial a at v. */
  function Terms(a: seq<Complex>, v: Complex): nat -> Complex
  {
    (j: nat) => if j < |a| then Mul(a[j], Pow(v, j)) else Zero
  }

  /** The polynomial evaluation of DiscreteFourier as a finite sum. */
  lemma {:induction false} EvalSigma(a: seq<Complex>, v: Complex, t: nat)
    requires t <= |a|
    ensures Eval(a, v, t) == Sigma(t, Terms(a, v))
  {
    if t > 0 {
      EvalSigma(a, v, t - 1);
    }
  }

  /** Conjugating a polynomial value conjugates the coefficients and the
      point. */
  lemma {:induction false} EvalConj(a: seq<Complex>, v: Complex, t: nat)
    requires t <= |a|
    ensures Conj(Eval(a, v, t)) == Eval(ConjSeq(a), Conj(v), t)
  {
    if t > 0 {
      EvalConj(a, v, t - 1);
      ConjMul(a[t - 1], Pow(v, t - 1));
      ConjPow(v, t - 1);
    }
  }

  /** (i, j) |-> f(i) g(j). */
  function Outer(f: nat -> Complex, g: nat -> Complex): (nat, nat) -> Complex
  {
    (i: nat, j: nat) => Mul(f(i), g(j))
  }

  /** The terms of output w of the transform of c, where c[k] is the
      product of a at ra^k and x at rx^k: w^k a[j] (ra^k)^j x[l] (rx^k)^l. */
  function ProductTerms(a: seq<Complex>, x: seq<Complex>, ra: Complex, rx: Complex, w: Complex)
    : (nat, nat, nat) -> Complex
  {
    (k: nat, j: nat, l: nat) =>
      if j < |a| && l < |x| then
        Mul(Pow(w, k), Mul(Mul(a[j], Pow(Pow(ra, k), j)), Mul(x[l], Pow(Pow(rx, k), l))))
      else Zero
  }

  /** Term k of the outer sum, as a double sum over j and l. */
  lemma ExpandTerm(a: seq<Complex>, x: seq<Complex>, ra: Complex, rx: Complex, w: Complex,
                   c: seq<Complex>, k: nat)
    requires |a| == |x| == |c| && k < |c|
    requires c[k] == Mul(Eval(a, Pow(ra, k), |a|), Eval(x, Pow(rx, k), |x|))
    ensures Terms(c, w)(k) == SliceSums(|a|, |x|, ProductTerms(a, x, ra, rx, w))(k)
  {
    var n := |a|;
    var ta, tx := Terms(a, Pow(ra, k)), Terms(x, Pow(rx, k));
    EvalSigma(a, Pow(ra, k), n);
    EvalSigma(x, Pow(rx, k), n);
    SigmaProduct(n, n, ta, tx, Outer(ta, tx));
    Sigma2Scale(n, n, Pow(w, k), Outer(ta, tx), Slice(ProductTerms(a, x, ra, rx, w), k));
    MulComm(c[k], Pow(w, k));
  }

  /** The transform of c at w, with its sum over k taken innermost. */
  lemma Expand(a: seq<Complex>, x: seq<Complex>, ra: Complex, rx: Complex, w: Complex, c: seq<Complex>)
    requires |a| == |x| == |c|
    requires forall k :: 0 <= k < |c| ==> c[k] == Mul(Eval(a, Pow(ra, k), |a|), Eval(x, Pow(rx, k), |x|))
    ensures Eval(c, w, |c|) == Sigma2(|a|, |x|, FiberSums(|c|, ProductTerms(a, x, ra, rx, w)))
  {
    var F := ProductTerms(a, x, ra, rx, w);
    forall k: nat | k < |c|
      ensures Terms(c, w)(k) == SliceSums(|a|, |x|, F)(k)
    {
      ExpandTerm(a, x, ra, rx, w, c, k);
    }
    EvalSigma(c, w, |c|);
    SigmaExt(|c|, Terms(c, w), SliceSums(|a|, |x|, F));
    Sigma3Rotate(|c|, |a|, |x|, F);
  }

  /** One term, regrouped as the coefficient product times a power. */
  lemma FiberTerm(p: Complex, q: Complex, ra: Complex, rx: Complex, w: Complex, j: nat, l: nat, k: nat)
    ensures Mul(Pow(w, k), Mul(Mul(p, Pow(Pow(ra, k), j)), Mul(q, Pow(Pow(rx, k), l))))
         == Mul(Mul(p, q), Pow(Mul(Mul(Pow(ra, j), Pow(rx, l)), w), k))
  {
    var A, B := Pow(Pow(ra, j), k), Pow(Pow(rx, l), k);
    PowMul(ra, k, j);
    PowMul(ra, j, k);
    PowMul(rx, k, l);
    PowMul(rx, l, k);
    assert k * j == j * k && k * l == l * k;
    MulMiddle(p, A, q, B);
    PowOfMul(Pow(ra, j), Pow(rx, l), k);
    MulLeftComm(Pow(w, k), Mul(p, q), Mul(A, B));
    MulComm(Pow(w, k), Mul(A, B));
    PowOfMul(Mul(Pow(ra, j), Pow(rx, l)), w, k);
  }

  /** The sum over k of one fiber: the coefficient product times a
      geometric sum. */
  lemma FiberSum(a: seq<Complex>, x: seq<Complex>, ra: Complex, rx: Complex, w: Complex,
                 n: nat, j: nat, l: nat, u: Complex)
    requires j < |a| && l < |x| && u == Mul(Mul(Pow(ra, j), Pow(rx, l)), w)
    ensures FiberSums(n, ProductTerms(a, x, ra, rx, w))(j, l) == Mul(Mul(a[j], x[l]), Sigma(n, Powers(u)))
  {
    var F := ProductTerms(a, x, ra, rx, w);
    forall k: nat | k < n
      ensures Fiber(F, j, l)(k) == Mul(Mul(a[j], x[l]), Powers(u)(k))
    {
      FiberTerm(a[j], x[l], ra, rx, w, j, l, k);
    }
    SigmaScale(n, Mul(a[j], x[l]), Powers(u), Fiber(F, j, l));
  }

  /** The exponent of one convolution fiber: omega^j omega^l omegaInv^m is
      omega^(j + l + n - m). */
  lemma ConvExponent(omega: Complex, omegaInv: Complex, n: nat, m: nat, j: nat, l: nat)
    requires 2 <= n && n % 2 == 0 && PrimitiveRoot(omega, n) && Mul(omega, omegaInv) == One && m <= n
    ensures Mul(Mul(Pow(omega, j), Pow(omega, l)), Pow(omegaInv, m)) == Pow(omega, j + l + n - m)
  {
    RootPeriod(omega, n);
    InversePow(omega, omegaInv, n, m);
    PowAdd(omega, j, l);
    PowAdd(omega, j + l, n - m);
  }

  /** n times the coefficient product when the count says so, else 0. */
  lemma ScaleByCount(p: Complex, s: Complex, n: nat, hit: bool)
    requires s == if hit then OfReal(n as real) else Zero
    ensures Mul(p, s) == Mul(OfReal(n as real), if hit then p else Zero)
  {
    MulComm(p, OfReal(n as real));
    MulZero(p);
    MulZero(OfReal(n as real));
  }

  /** Orthogonality picks out the terms with j + l == m modulo n. */
  lemma ConvFiber(h: seq<Complex>, x: seq<Complex>, omega: Complex, omegaInv: Complex, m: nat, j: nat, l: nat)
    requires |h| == |x| && IsPow2(|h|) && 2 <= |h| && PrimitiveRoot(omega, |h|) && Mul(omega, omegaInv) == One
    requires m < |h| && j < |h| && l < |h|
    ensures FiberSums(|h|, ProductTerms(h, x, omega, omega, Pow(omegaInv, m)))(j, l)
         == Mul(OfReal(|h| as real), ConvTerms(h, x, m)(j, l))
  {
    var n := |h|;
    var e := j + l + n - m;
    var u := Mul(Mul(Pow(omega, j), Pow(omega, l)), Pow(omegaInv, m));
    assert u == Pow(omega, e) by {
      assert n % 2 == 0;
      ConvExponent(omega, omegaInv, n, m, j, l);
    }
    FiberSum(h, x, omega, omega, Pow(omegaInv, m), n, j, l, u);
    var s := Sigma(n, Powers(u));
    assert s == if e == n || e == 2 * n then OfReal(n as real) else Zero by {
      Orthogonality(omega, n, e);
    }
    ScaleByCount(Mul(h[j], x[l]), s, n, e == n || e == 2 * n);
  }

  /** Each entry of the product of the two spectra is the product of the
      two polynomials at the same power of omega. */
  lemma ConvSpectrum(h: seq<Complex>, x: seq<Complex>, omega: Complex)
    requires |h| == |x|
    ensures forall k :: 0 <= k < |h| ==>
              Multiply(Dft(h, omega), Dft(x, omega), false)[k]
              == Mul(Eval(h, Pow(omega, k), |h|), Eval(x, Pow(omega, k), |x|))
  {
  }

  /** Every fiber of the expanded convolution, by ConvFiber. */
  lemma ConvFibers(h: seq<Complex>, x: seq<Complex>, omega: Complex, omegaInv: Complex, m: nat)
    requires |h| == |x| && IsPow2(|h|) && 2 <= |h| && PrimitiveRoot(omega, |h|) && Mul(omega, omegaInv) == One
    requires m < |h|
    ensures forall j: nat, l: nat :: j < |h| && l < |h| ==>
              FiberSums(|h|, ProductTerms(h, x, omega, omega, Pow(omegaInv, m)))(j, l)
              == Mul(OfReal(|h| as real), ConvTerms(h, x, m)(j, l))
  {
    forall j: nat, l: nat | j < |h| && l < |h|
      ensures FiberSums(|h|, ProductTerms(h, x, omega, omega, Pow(omegaInv, m)))(j, l)
              == Mul(OfReal(|h| as real), ConvTerms(h, x, m)(j, l))
    {
      ConvFiber(h, x, omega, omegaInv, m, j, l);
    }
  }

  /** Output m of the inverse transform of the product of the spectra,
      expanded into the fibers of the product polynomial. */
  lemma ConvExpand(h: seq<Complex>, x: seq<Complex>, omega: Complex, omegaInv: Complex, m: nat)
    requires |h| == |x| && m < |h|
    ensures Dft(Multiply(Dft(h, omega), Dft(x, omega), false), omegaInv)[m]
         == Sigma2(|h|, |x|, FiberSums(|h|, ProductTerms(h, x, omega, omega, Pow(omegaInv, m))))
  {
    var c := Multiply(Dft(h, omega), Dft(x, omega), false);
    ConvSpectrum(h, x, omega);
    Expand(h, x, omega, omega, Pow(omegaInv, m), c);
  }

  /** Summing the fibers leaves n times the cyclic convolution. */
  lemma ConvCollect(h: seq<Complex>, x: seq<Complex>, omega: Complex, omegaInv: Complex, m: nat)
    requires |h| == |x| && IsPow2(|h|) && 2 <= |h| && PrimitiveRoot(omega, |h|) && Mul(omega, omegaInv) == One
    requires m < |h|
    ensures Sigma2(|h|, |x|, FiberSums(|h|, ProductTerms(h, x, omega, omega, Pow(omegaInv, m))))
         == Mul(OfReal(|h| as real), Sigma2(|h|, |x|, ConvTerms(h, x, m)))
  {
    var n := |h|;
    ConvFibers(h, x, omega, omegaInv, m);
    Sigma2Scale(n, n, OfReal(n as real), ConvTerms(h, x, m), FiberSums(n, ProductTerms(h, x, omega, omega, Pow(omegaInv, m))));
  }

  /** The convolution theorem: transforming back the product of the two
      spectra gives n times the cyclic convolution. */
  lemma ConvolutionTheorem(h: seq<Complex>, x: seq<Complex>, omega: Complex, omegaInv: Complex, m: nat)
    requires |h| == |x| && IsPow2(|h|) && 2 <= |h| && PrimitiveRoot(omega, |h|) && Mul(omega, omegaInv) == One
    requires m < |h|
    ensures Dft(Multiply(Dft(h, omega), Dft(x, omega), false), omegaInv)[m]
         == Mul(OfReal(|h| as real), Sigma2(|h|, |x|, ConvTerms(h, x, m)))
  {
    ConvExpand(h, x, omega, omegaInv, m);
    ConvCollect(h, x, omega, omegaInv, m);
  }

  // ---------------------------------------------------------------------
  // The correlation theorem

  /** Conjugating the first spectrum turns it into the transform of the
      conjugated sequence at the inverse root. */
  lemma CorrSpectrum(h: seq<Complex>, x: seq<Complex>, omega: Complex, omegaInv: Complex)
    requires |h| == |x| && Conj(omega) == omegaInv
    ensures forall k :: 0 <= k < |h| ==>
              Multiply(Dft(h, omega), Dft(x, omega), true)[k]
              == Mul(Eval(ConjSeq(h), Pow(omegaInv, k), |h|), Eval(x, Pow(omega, k), |x|))
  {
    forall k | 0 <= k < |h|
      ensures Conj(Eval(h, Pow(omega, k), |h|)) == Eval(ConjSeq(h), Pow(omegaInv, k), |h|)
    {
      EvalConj(h, Pow(omega, k), |h|);
      ConjPow(omega, k);
    }
  }

  /** The exponent of one correlation fiber: omegaInv^j omega^l omegaInv^m
      is omega^(l + 2n - j - m). */
  lemma CorrExponent(omega: Complex, omegaInv: Complex, n: nat, m: nat, j: nat, l: nat)
    requires 2 <= n && n % 2 == 0 && PrimitiveRoot(omega, n) && Mul(omega, omegaInv) == One && j + m <= 2 * n
    ensures Mul(Mul(Pow(omegaInv, j), Pow(omega, l)), Pow(omegaInv, m)) == Pow(omega, l + 2 * n - j - m)
  {
    var A, B, C := Pow(omegaInv, j), Pow(omega, l), Pow(omegaInv, m);
    calc {
      Mul(Mul(A, B), C);
      { MulComm(A, B); MulAssoc(B, A, C); }
      Mul(B, Mul(A, C));
      { PowAdd(omegaInv, j, m); }
      Mul(B, Pow(omegaInv, j + m));
      { RootPeriod(omega, n); InversePow(omega, omegaInv, 2 * n, j + m); }
      Mul(B, Pow(omega, 2 * n - (j + m)));
      { PowAdd(omega, l, 2 * n - (j + m)); }
      Pow(omega, l + 2 * n - j - m);
    }
  }

  /** Orthogonality picks out the terms with l == j + m modulo n. */
  lemma CorrFiber(h: seq<Complex>, x: seq<Complex>, omega: Complex, omegaInv: Complex, m: nat, j: nat, l: nat)
    requires |h| == |x| && IsPow2(|h|) && 2 <= |h| && PrimitiveRoot(omega, |h|) && Mul(omega, omegaInv) == One
    requires m < |h| && j < |h| && l < |h|
    ensures FiberSums(|h|, ProductTerms(ConjSeq(h), x, omegaInv, omega, Pow(omegaInv, m)))(j, l)
         == Mul(OfReal(|h| as real), CorrTerms(h, x, m)(j, l))
  {
    var n := |h|;
    var e := l + 2 * n - j - m;
    var u := Mul(Mul(Pow(omegaInv, j), Pow(omega, l)), Pow(omegaInv, m));
    assert u == Pow(omega, e) by {
      assert n % 2 == 0;
      CorrExponent(omega, omegaInv, n, m, j, l);
    }
    FiberSum(ConjSeq(h), x, omegaInv, omega, Pow(omegaInv, m), n, j, l, u);
    var s := Sigma(n, Powers(u));
    assert s == if e == n || e == 2 * n then OfReal(n as real) else Zero by {
      Orthogonality(omega, n, e);
    }
    ScaleByCount(Mul(ConjSeq(h)[j], x[l]), s, n, e == n || e == 2 * n);
  }

  /** Every fiber of the expanded correlation, by CorrFiber. */
  lemma CorrFibers(h: seq<Complex>, x: seq<Complex>, omega: Complex, omegaInv: Complex, m: nat)
    requires |h| == |x| && IsPow2(|h|) && 2 <= |h| && PrimitiveRoot(omega, |h|) && Mul(omega, omegaInv) == One
    requires m < |h|
    ensures forall j: nat, l: nat :: j < |h| && l < |h| ==>
              FiberSums(|h|, ProductTerms(ConjSeq(h), x, omegaInv, omega, Pow(omegaInv, m)))(j, l)
              == Mul(OfReal(|h| as real), CorrTerms(h, x, m)(j, l))
  {
    forall j: nat, l: nat | j < |h| && l < |h|
      ensures FiberSums(|h|, ProductTerms(ConjSeq(h), x, omegaInv, omega, Pow(omegaInv, m)))(j, l)
              == Mul(OfReal(|h| as real), CorrTerms(h, x, m)(j, l))
    {
      CorrFiber(h, x, omega, omegaInv, m, j, l);
    }
  }

  /** Output m of the transform back of the correlation's spectrum, as a
      double sum of fibers. */
  lemma CorrExpand(h: seq<Complex>, x: seq<Complex>, omega: Complex, omegaInv: Complex, m: nat)
    requires |h| == |x| && Conj(omega) == omegaInv && m < |h|
    ensures Dft(Multiply(Dft(h, omega), Dft(x, omega), true), omegaInv)[m]
         == Sigma2(|h|, |x|, FiberSums(|h|, ProductTerms(ConjSeq(h), x, omegaInv, omega, Pow(omegaInv, m))))
  {
    var c := Multiply(Dft(h, omega), Dft(x, omega), true);
    CorrSpectrum(h, x, omega, omegaInv);
    Expand(ConjSeq(h), x, omegaInv, omega, Pow(omegaInv, m), c);
  }

  /** Summing the fibers leaves n times the cyclic correlation. */
  lemma CorrCollect(h: seq<Complex>, x: seq<Complex>, omega: Complex, omegaInv: Complex, m: nat)
    requires |h| == |x| && IsPow2(|h|) && 2 <= |h| && PrimitiveRoot(omega, |h|)
    requires Mul(omega, omegaInv) == One && Conj(omega) == omegaInv
    requires m < |h|
    ensures Sigma2(|h|, |x|, FiberSums(|h|, ProductTerms(ConjSeq(h), x, omegaInv, omega, Pow(omegaInv, m))))
         == Mul(OfReal(|h| as real), Sigma2(|h|, |x|, CorrTerms(h, x, m)))
  {
    var n := |h|;
    CorrFibers(h, x, omega, omegaInv, m);
    Sigma2Scale(n, n, OfReal(n as real), CorrTerms(h, x, m), FiberSums(n, ProductTerms(ConjSeq(h), x, omegaInv, omega, Pow(omegaInv, m))));
  }

  /** The correlation theorem: transforming back the product of the
      conjugated first spectrum with the second gives n times the cyclic
      correlation. */
  lemma CorrelationTheorem(h: seq<Complex>, x: seq<Complex>, omega: Complex, omegaInv: Complex, m: nat)
    requires |h| == |x| && IsPow2(|h|) && 2 <= |h| && PrimitiveRoot(omega, |h|)
    requires Mul(omega, omegaInv) == One && Conj(omega) == omegaInv
    requires m < |h|
    ensures Dft(Multiply(Dft(h, omega), Dft(x, omega), true), omegaInv)[m]
         == Mul(OfReal(|h| as real), Sigma2(|h|, |x|, CorrTerms(h, x, m)))
  {
    CorrExpand(h, x, omega, omegaInv, m);
    CorrCollect(h, x, omega, omegaInv, m);
  }

  // ---------------------------------------------------------------------
  // The transform back

  /** The unit impulse of length n: 1 at index 0 and 0 elsewhere. */
  function Impulse(n: nat): (d: seq<Complex>)
    ensures |d| == n
  {
    seq(n, i requires 0 <= i < n => if i == 0 then One else Zero)
  }

  /** The impulse takes the value 1 at every point. */
  lemma {:induction false} EvalImpulse(n: nat, v: Complex, t: nat)
    requires 1 <= t <= n
    ensures Eval(Impulse(n), v, t) == One
  {
    if t > 1 {
      EvalImpulse(n, v, t - 1);
      MulZero(Pow(v, t - 1));
    }
  }

  /** Multiplying a spectrum by the spectrum of the impulse leaves it as
      it was. */
  lemma ImpulseSpectrum(a: seq<Complex>, omega: Complex)
    requires 1 <= |a|
    ensures Multiply(Dft(a, omega), Dft(Impulse(|a|), omega), false) == Dft(a, omega)
  {
    var c := Multiply(Dft(a, omega), Dft(Impulse(|a|), omega), false);
    forall k | 0 <= k < |a|
      ensures c[k] == Dft(a, omega)[k]
    {
      EvalImpulse(|a|, Pow(omega, k), |a|);
      MulOne(Dft(a, omega)[k]);
    }
  }

  /** The only term of output m of the convolution with the impulse is
      a[m] 1, at (m, 0). */
  lemma ImpulseTerm(a: seq<Complex>, m: nat, j: nat, l: nat)
    requires m < |a| && j < |a| && l < |a|
    ensures ConvTerms(a, Impulse(|a|), m)(j, l) == if j == m && l == 0 then a[m] else Zero
  {
    MulZero(a[j]);
    MulOne(a[j]);
  }

  /** Only the column l == 0 of the convolution with the impulse counts. */
  lemma ImpulseFirstColumn(a: seq<Complex>, m: nat)
    requires m < |a|
    ensures Sigma2(|a|, |a|, ConvTerms(a, Impulse(|a|), m)) == Sigma2(|a|, 1, ConvTerms(a, Impulse(|a|), m))
  {
    var n := |a|;
    forall j: nat, l: nat | j < n && l < n && 1 <= l
      ensures ConvTerms(a, Impulse(n), m)(j, l) == Zero
    {
      ImpulseTerm(a, m, j, l);
    }
    Sigma2Tail(n, n, n, 1, ConvTerms(a, Impulse(n), m));
  }

  /** Row j of that column is a[m] for j == m and 0 otherwise. */
  lemma ImpulseRow(a: seq<Complex>, m: nat, j: nat)
    requires m < |a| && j < |a|
    ensures RowSums(1, ConvTerms(a, Impulse(|a|), m))(j) == if j == m then a[m] else Zero
  {
    ImpulseTerm(a, m, j, 0);
  }

  /** The cyclic convolution of a with the impulse is a. */
  lemma ImpulseConvolution(a: seq<Complex>, m: nat)
    requires m < |a|
    ensures Sigma2(|a|, |a|, ConvTerms(a, Impulse(|a|), m)) == a[m]
  {
    var n := |a|;
    var g := RowSums(1, ConvTerms(a, Impulse(n), m));
    ImpulseFirstColumn(a, m);
    forall j: nat | j < n && j != m
      ensures g(j) == Zero
    {
      ImpulseRow(a, m, j);
    }
    ImpulseRow(a, m, m);
    SigmaSingle(n, m, g);
  }

  /** Transforming back with the inverse root undoes the transform up to
      the factor n: the round trip behind "the sign of omega gives the
      direction". */
  lemma FftRoundTrip(a: seq<Complex>, omega: Complex, omegaInv: Complex)
    requires IsPow2(|a|) && PrimitiveRoot(omega, |a|) && Mul(omega, omegaInv) == One
    ensures FftSpec(FftSpec(a, omega), omegaInv) == Scale(OfReal(|a| as real), a)
  {
    var n := |a|;
    if n == 1 {
      MulOne(a[0]);
      assert Scale(OfReal(1.0), a) == a;
    } else {
      InverseIsRoot(omega, omegaInv, n);
      FftIsDft(a, omega);
      FftIsDft(Dft(a, omega), omegaInv);
      ImpulseSpectrum(a, omega);
      forall m | 0 <= m < n
        ensures Dft(Dft(a, omega), omegaInv)[m] == Mul(OfReal(n as real), a[m])
      {
        ConvolutionTheorem(a, Impulse(n), omega, omegaInv, m);
        ImpulseConvolution(a, m);
      }
      SeqExt(Dft(Dft(a, omega), omegaInv), Scale(OfReal(n as real), a));
    }
  }
}
