/** The discrete Fourier transform by its defining sum, and the proof that
    the recursive transform of sigprocess.c computes it whenever omega is a
    primitive root of unity of the transform length. */
module DiscreteFourier {
  import opened Complex
  import opened Util
  import opened Fft

  /** omega is a primitive n-th root of unity, n a power of two: either
      n == 1, or omega^(n/2) == -1 (so omega^n == 1 and no smaller power
      of two is a period). */
  predicate PrimitiveRoot(omega: Complex, n: int) {
    n == 1 || (n >= 2 && Pow(omega, n / 2) == MinusOne)
  }

  /** The first t terms of the polynomial with coefficients a, at v:
      a[0] + a[1] v + ... + a[t-1] v^(t-1). */
  function Eval(a: seq<Complex>, v: Complex, t: nat): Complex
    requires t <= |a|
  {
    if t == 0 then Zero else Add(Eval(a, v, t - 1), Mul(a[t - 1], Pow(v, t - 1)))
  }

  /** The transform by definition: output k is the sum over j of
      a[j] (w^k)^j, that is of a[j] w^(jk) (see DftTerm). */
  function Dft(a: seq<Complex>, w: Complex): (y: seq<Complex>)
    ensures |y| == |a|
  {
    seq(|a|, k requires 0 <= k < |a| => Eval(a, Pow(w, k), |a|))
  }

  /** The j-th term of output k carries the twiddle w^(jk). */
  lemma DftTerm(w: Complex, j: nat, k: nat)
    ensures Pow(Pow(w, k), j) == Pow(w, j * k)
  {
    PowMul(w, k, j);
  }

  // ---------------------------------------------------------------------
  // Facts about roots of unity

  /** The square of a root whose m-th power is -1 has m-th power 1. */
  lemma {:induction false} SquaredRootPeriod(omega: Complex, m: nat)
    requires Pow(omega, m) == MinusOne
    ensures Pow(Pow(omega, 2), m) == One
  {
    PowMul(omega, 2, m);
    PowAdd(omega, m, m);
    assert Mul(MinusOne, MinusOne) == One;
  }

  /** Squaring a primitive n-th root gives a primitive (n/2)-th root whose
      (n/2)-th power is 1. */
  lemma {:induction false} SquareOfRoot(omega: Complex, n: int)
    requires IsPow2(n) && n > 1 && PrimitiveRoot(omega, n)
    ensures Pow(Pow(omega, 2), n / 2) == One
    ensures PrimitiveRoot(Pow(omega, 2), n / 2)
  {
    var m := n / 2;
    SquaredRootPeriod(omega, m);
    if m > 1 {
      PowMul(omega, 2, m / 2);
      assert 2 * (m / 2) == m;
    }
  }

  /** Adding a period to the exponent does not change the power. */
  lemma PowAddPeriod(v: Complex, a: nat, b: nat)
    requires Pow(v, b) == One
    ensures Pow(v, a + b) == Pow(v, a)
  {
    PowAdd(v, a, b);
    MulOne(Pow(v, a));
  }

  /** Half a turn flips the twiddle: omega^(i + n/2) == -omega^i when
      omega^(n/2) == -1. */
  lemma TwiddleHalfTurn(omega: Complex, n: int, i: nat)
    requires n >= 2 && PrimitiveRoot(omega, n)
    ensures Pow(omega, i + n / 2) == Neg(Pow(omega, i))
  {
    PowAdd(omega, i, n / 2);
    MulMinusOne(Pow(omega, i));
  }

  /** The squared root repeats with period m when omega^m == -1. */
  lemma RootSquaredPeriodic(omega: Complex, m: nat, i: nat)
    requires Pow(omega, m) == MinusOne
    ensures Pow(Pow(omega, 2), i + m) == Pow(Pow(omega, 2), i)
  {
    SquaredRootPeriod(omega, m);
    PowAddPeriod(Pow(omega, 2), i, m);
  }

  /** The square of the k-th twiddle is the k-th power of the squared root. */
  lemma SquareTwiddle(w: Complex, k: nat)
    ensures Mul(Pow(w, k), Pow(w, k)) == Pow(Pow(w, 2), k)
  {
    PowAdd(w, k, k);
    PowMul(w, 2, k);
  }

  // ---------------------------------------------------------------------
  // The even/odd split of the defining sum

  lemma {:induction false} SplitStep(sum: Complex, e: Complex, o: Complex, x: Complex, p: Complex, a0: Complex, a1: Complex)
    requires sum == Add(e, Mul(x, o))
    ensures Add(Add(sum, Mul(a0, p)), Mul(a1, Mul(p, x)))
         == Add(Add(e, Mul(a0, p)), Mul(x, Add(o, Mul(a1, p))))
  {
    MulAddRight(x, o, Mul(a1, p));
    MulAssoc(a1, p, x);
    MulComm(Mul(a1, p), x);
  }

  /** The first 2t terms at v split into the even-indexed coefficients at
      v^2 and v times the odd-indexed ones at v^2. */
  lemma {:induction false} EvalSplit(a: seq<Complex>, v: Complex, t: nat)
    requires 2 * t <= |a|
    ensures Eval(a, v, 2 * t)
         == Add(Eval(Evens(a), Mul(v, v), t), Mul(v, Eval(Odds(a), Mul(v, v), t)))
  {
    var vv := Mul(v, v);
    if t == 0 {
      MulZero(v);
    } else {
      var u := t - 1;
      EvalSplit(a, v, u);
      var p := Pow(v, 2 * u);
      PowSquare(v, u);
      assert Pow(v, 2 * u + 1) == Mul(p, v);
      assert Evens(a)[u] == a[2 * u] && Odds(a)[u] == a[2 * u + 1];
      assert Eval(a, v, 2 * t) == Add(Add(Eval(a, v, 2 * u), Mul(a[2 * u], p)), Mul(a[2 * u + 1], Mul(p, v)));
      SplitStep(Eval(a, v, 2 * u), Eval(Evens(a), vv, u), Eval(Odds(a), vv, u),
                v, p, a[2 * u], a[2 * u + 1]);
    }
  }

  /** Output k of the transform of an even-length sequence, in terms of the
      defining sums of its two halves with the squared root. */
  lemma DftSplitAt(a: seq<Complex>, w: Complex, k: nat)
    requires |a| % 2 == 0 && k < |a|
    ensures var m, vk := |a| / 2, Pow(Pow(w, 2), k);
            Dft(a, w)[k] == Add(Eval(Evens(a), vk, m), Mul(Pow(w, k), Eval(Odds(a), vk, m)))
  {
    EvalSplit(a, Pow(w, k), |a| / 2);
    SquareTwiddle(w, k);
  }

  // ---------------------------------------------------------------------
  // The radix-2 transform is the discrete Fourier transform

  lemma {:induction false} NegTwiddle(e: Complex, x: Complex, o: Complex)
    ensures Add(e, Mul(Neg(x), o)) == Sub(e, Mul(x, o))
  {
    MulNeg(x, o);
  }

  /** Rewriting the point and the twiddle of a split sum. */
  lemma {:induction false} SplitRewrite(d: Complex, e: seq<Complex>, o: seq<Complex>, m: nat,
                                         vk: Complex, vi: Complex, tk: Complex, ti: Complex)
    requires m <= |e| && m <= |o|
    requires d == Add(Eval(e, vk, m), Mul(tk, Eval(o, vk, m)))
    requires vk == vi && tk == Neg(ti)
    ensures d == Add(Eval(e, vi, m), Mul(Neg(ti), Eval(o, vi, m)))
  {
  }

  /** Output i + n/2 of the defining sum, before the sign of the twiddle
      is folded into a subtraction: the squared root has period n/2 and
      omega^(i + n/2) == -omega^i. */
  lemma {:induction false} DftHighSums(a: seq<Complex>, omega: Complex, i: nat)
    requires IsPow2(|a|) && |a| > 1 && PrimitiveRoot(omega, |a|) && i < |a| / 2
    ensures var m, vi := |a| / 2, Pow(Pow(omega, 2), i);
            Dft(a, omega)[i + m] == Add(Eval(Evens(a), vi, m), Mul(Neg(Pow(omega, i)), Eval(Odds(a), vi, m)))
  {
    var m := |a| / 2;
    var w2 := Pow(omega, 2);
    var k := i + m;
    assert |a| % 2 == 0;
    DftSplitAt(a, omega, k);
    RootSquaredPeriodic(omega, m, i);
    TwiddleHalfTurn(omega, |a|, i);
    SplitRewrite(Dft(a, omega)[k], Evens(a), Odds(a), m, Pow(w2, k), Pow(w2, i), Pow(omega, k), Pow(omega, i));
  }

  /** Output i + n/2 of the defining sum is E[i] - omega^i O[i], E and O
      being the defining sums of the halves with omega^2. */
  lemma {:induction false} DftHigh(a: seq<Complex>, omega: Complex, i: nat)
    requires IsPow2(|a|) && |a| > 1 && PrimitiveRoot(omega, |a|) && i < |a| / 2
    ensures var m, w2 := |a| / 2, Pow(omega, 2);
            Dft(a, omega)[i + m] == Sub(Dft(Evens(a), w2)[i], Mul(Pow(omega, i), Dft(Odds(a), w2)[i]))
  {
    var m := |a| / 2;
    var vi := Pow(Pow(omega, 2), i);
    var e, o := Eval(Evens(a), vi, m), Eval(Odds(a), vi, m);
    DftHighSums(a, omega, i);
    NegTwiddle(e, Pow(omega, i), o);
    assert Dft(Evens(a), Pow(omega, 2))[i] == e;
    assert Dft(Odds(a), Pow(omega, 2))[i] == o;
  }

  /** A one-element sequence is its own transform. */
  lemma DftSingle(a: seq<Complex>, omega: Complex)
    requires |a| == 1
    ensures Dft(a, omega) == a
  {
    var v := Pow(omega, 0);
    assert Dft(a, omega)[0] == Eval(a, v, 1);
    assert Pow(v, 0) == One;
    MulOne(a[0]);
  }

  /** Two sequences that agree at every index are equal. */
  lemma SeqExt(s: seq<Complex>, t: seq<Complex>)
    requires |s| == |t|
    requires forall k :: 0 <= k < |s| ==> s[k] == t[k]
    ensures s == t
  {
  }

  /** Output k < n/2 of the radix-2 step, given that the transforms of the
      two halves with the squared root are already their defining sums. */
  lemma FftIsDftLow(a: seq<Complex>, omega: Complex, k: nat)
    requires IsPow2(|a|) && |a| > 1 && k < |a| / 2
    requires FftSpec(Evens(a), Pow(omega, 2)) == Dft(Evens(a), Pow(omega, 2))
    requires FftSpec(Odds(a), Pow(omega, 2)) == Dft(Odds(a), Pow(omega, 2))
    ensures FftSpec(a, omega)[k] == Dft(a, omega)[k]
  {
    FftSplitAt(a, omega, k);
    DftSplitAt(a, omega, k);
  }

  /** Output k + n/2 of the radix-2 step, under the same assumption. */
  lemma FftIsDftHigh(a: seq<Complex>, omega: Complex, k: nat)
    requires IsPow2(|a|) && |a| > 1 && PrimitiveRoot(omega, |a|) && k < |a| / 2
    requires FftSpec(Evens(a), Pow(omega, 2)) == Dft(Evens(a), Pow(omega, 2))
    requires FftSpec(Odds(a), Pow(omega, 2)) == Dft(Odds(a), Pow(omega, 2))
    ensures FftSpec(a, omega)[k + |a| / 2] == Dft(a, omega)[k + |a| / 2]
  {
    FftSplitAt(a, omega, k);
    DftHigh(a, omega, k);
  }

  /** The radix-2 step preserves agreement with the defining sum: if the
      two half-length transforms are their defining sums, so is the whole. */
  lemma FftIsDftStep(a: seq<Complex>, omega: Complex)
    requires IsPow2(|a|) && |a| > 1 && PrimitiveRoot(omega, |a|)
    requires FftSpec(Evens(a), Pow(omega, 2)) == Dft(Evens(a), Pow(omega, 2))
    requires FftSpec(Odds(a), Pow(omega, 2)) == Dft(Odds(a), Pow(omega, 2))
    ensures FftSpec(a, omega) == Dft(a, omega)
  {
    var m := |a| / 2;
    forall k | 0 <= k < |a|
      ensures FftSpec(a, omega)[k] == Dft(a, omega)[k]
    {
      if k < m {
        FftIsDftLow(a, omega, k);
      } else {
        FftIsDftHigh(a, omega, k - m);
      }
    }
    SeqExt(FftSpec(a, omega), Dft(a, omega));
  }

  /** For a primitive root of unity omega of the length, the recursive
      transform computes the discrete Fourier transform. */
  lemma {:induction false} FftIsDft(a: seq<Complex>, omega: Complex)
    requires IsPow2(|a|) && PrimitiveRoot(omega, |a|)
    ensures FftSpec(a, omega) == Dft(a, omega)
    decreases |a|
  {
    if |a| == 1 {
      DftSingle(a, omega);
    } else {
      var w2 := Pow(omega, 2);
      assert IsPow2(|a| / 2) && PrimitiveRoot(w2, |a| / 2) by {
        SquareOfRoot(omega, |a|);
      }
      FftIsDft(Evens(a), w2);
      FftIsDft(Odds(a), w2);
      FftIsDftStep(a, omega);
    }
  }
}
