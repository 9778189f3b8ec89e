/** The recursive radix-2 Cooley-Tukey transform of sigprocess.c (`FFT`).
    FftSpec is the transform as a function on sequences; the method FFT is
    the C routine, which fills fresh arrays in loops, and is proved to
    compute FftSpec. */
module Fft {
  import opened Complex
  import opened Util

  // ---------------------------------------------------------------------
  // The even/odd split

  /** a[0], a[2], a[4], ... */
  function Evens(a: seq<Complex>): seq<Complex> {
    seq(|a| / 2, i requires 0 <= i < |a| / 2 => a[2 * i])
  }

  /** a[1], a[3], a[5], ... */
  function Odds(a: seq<Complex>): seq<Complex> {
    seq(|a| / 2, i requires 0 <= i < |a| / 2 => a[2 * i + 1])
  }

  /** e[0], o[0], e[1], o[1], ...: the inverse of the split. */
  function Interleave(e: seq<Complex>, o: seq<Complex>): (r: seq<Complex>)
    requires |e| == |o|
    ensures |r| == 2 * |e|
  {
    if |e| == 0 then [] else [e[0], o[0]] + Interleave(e[1..], o[1..])
  }

  /** Dropping the first pair drops the first element of each half. */
  lemma SplitTail(a: seq<Complex>)
    requires |a| >= 2
    ensures Evens(a)[1..] == Evens(a[2..]) && Odds(a)[1..] == Odds(a[2..])
  {
  }

  /** Splitting loses nothing: interleaving the halves of an even-length
      sequence gives it back. */
  lemma {:induction false} InterleaveSplit(a: seq<Complex>)
    requires |a| % 2 == 0
    ensures Interleave(Evens(a), Odds(a)) == a
    decreases |a|
  {
    if |a| > 0 {
      var rest := a[2..];
      InterleaveSplit(rest);
      SplitTail(a);
      calc {
        Interleave(Evens(a), Odds(a));
        [a[0], a[1]] + Interleave(Evens(a)[1..], Odds(a)[1..]);
        [a[0], a[1]] + rest;
        a;
      }
    }
  }

  /** Splitting an interleaving gives back its two halves. */
  lemma {:induction false} SplitInterleave(e: seq<Complex>, o: seq<Complex>)
    requires |e| == |o|
    ensures Evens(Interleave(e, o)) == e && Odds(Interleave(e, o)) == o
    decreases |e|
  {
    if |e| > 0 {
      SplitInterleave(e[1..], o[1..]);
      var r := Interleave(e, o);
      assert r == [e[0], o[0]] + Interleave(e[1..], o[1..]);
      forall i | 0 <= i < |e|
        ensures Evens(r)[i] == e[i] && Odds(r)[i] == o[i]
      {
        if i > 0 {
          assert Evens(r)[i] == Evens(Interleave(e[1..], o[1..]))[i - 1];
          assert Odds(r)[i] == Odds(Interleave(e[1..], o[1..]))[i - 1];
        }
      }
    }
  }

  // ---------------------------------------------------------------------
  // The butterfly

  /** The first i outputs of the upper half: E[k] + w^k * O[k]. */
  function Top(e: seq<Complex>, o: seq<Complex>, w: Complex, i: nat): (r: seq<Complex>)
    requires |e| == |o| && i <= |e|
    ensures |r| == i
  {
    if i == 0 then [] else Top(e, o, w, i - 1) + [Add(e[i - 1], Mul(Pow(w, i - 1), o[i - 1]))]
  }

  /** The first i outputs of the lower half: E[k] - w^k * O[k]. */
  function Bottom(e: seq<Complex>, o: seq<Complex>, w: Complex, i: nat): (r: seq<Complex>)
    requires |e| == |o| && i <= |e|
    ensures |r| == i
  {
    if i == 0 then [] else Bottom(e, o, w, i - 1) + [Sub(e[i - 1], Mul(Pow(w, i - 1), o[i - 1]))]
  }

  /** Combines the transforms of the two halves into the transform of the
      whole, with twiddle factors w^0, w^1, ... */
  function Butterfly(e: seq<Complex>, o: seq<Complex>, w: Complex): (r: seq<Complex>)
    requires |e| == |o|
    ensures |r| == 2 * |e|
  {
    Top(e, o, w, |e|) + Bottom(e, o, w, |e|)
  }

  lemma {:induction false} TopAt(e: seq<Complex>, o: seq<Complex>, w: Complex, i: nat, k: nat)
    requires |e| == |o| && k < i <= |e|
    ensures Top(e, o, w, i)[k] == Add(e[k], Mul(Pow(w, k), o[k]))
    decreases i
  {
    if k < i - 1 {
      TopAt(e, o, w, i - 1, k);
    }
  }

  lemma {:induction false} BottomAt(e: seq<Complex>, o: seq<Complex>, w: Complex, i: nat, k: nat)
    requires |e| == |o| && k < i <= |e|
    ensures Bottom(e, o, w, i)[k] == Sub(e[k], Mul(Pow(w, k), o[k]))
    decreases i
  {
    if k < i - 1 {
      BottomAt(e, o, w, i - 1, k);
    }
  }

  /** One step of the butterfly loop: with x = w^i, the next top and bottom
      outputs extend the prefixes by one element each. */
  lemma {:induction false} TopBottomNext(e: seq<Complex>, o: seq<Complex>, w: Complex, i: nat, x: Complex, hi: Complex, lo: Complex)
    requires |e| == |o| && i < |e|
    requires x == Pow(w, i) && hi == Add(e[i], Mul(x, o[i])) && lo == Sub(e[i], Mul(x, o[i]))
    ensures Top(e, o, w, i + 1) == Top(e, o, w, i) + [hi]
    ensures Bottom(e, o, w, i + 1) == Bottom(e, o, w, i) + [lo]
  {
    assert Top(e, o, w, i + 1) == Top(e, o, w, i) + [Add(e[i], Mul(Pow(w, i), o[i]))];
    assert Bottom(e, o, w, i + 1) == Bottom(e, o, w, i) + [Sub(e[i], Mul(Pow(w, i), o[i]))];
  }

  /** Output k of the butterfly is E[k] + w^k O[k] and output k + m is
      E[k] - w^k O[k], m being the length of each half. */
  lemma {:induction false} ButterflyAt(e: seq<Complex>, o: seq<Complex>, w: Complex, k: nat)
    requires |e| == |o| && k < |e|
    ensures Butterfly(e, o, w)[k] == Add(e[k], Mul(Pow(w, k), o[k]))
    ensures Butterfly(e, o, w)[k + |e|] == Sub(e[k], Mul(Pow(w, k), o[k]))
  {
    TopAt(e, o, w, |e|, k);
    BottomAt(e, o, w, |e|, k);
  }

  // ---------------------------------------------------------------------
  // The transform

  /** The radix-2 transform of a power-of-two-length sequence with root
      omega: the identity on one element, otherwise the butterfly of the
      transforms of the even and odd halves taken with omega^2. */
  function FftSpec(a: seq<Complex>, omega: Complex): (y: seq<Complex>)
    requires IsPow2(|a|)
    ensures |y| == |a|
    decreases |a|
  {
    if |a| == 1 then a
    else
      var w2 := Pow(omega, 2);
      Butterfly(FftSpec(Evens(a), w2), FftSpec(Odds(a), w2), omega)
  }

  /** Output i and output i + n/2 of a transform of length n > 1, in terms
      of the transforms E and O of the two halves taken with omega^2. */
  lemma {:induction false} FftSplitAt(a: seq<Complex>, omega: Complex, i: nat)
    requires IsPow2(|a|) && 1 < |a| && i < |a| / 2
    ensures IsPow2(|a| / 2)
    ensures var e := FftSpec(Evens(a), Pow(omega, 2));
            var o := FftSpec(Odds(a), Pow(omega, 2));
            FftSpec(a, omega)[i] == Add(e[i], Mul(Pow(omega, i), o[i])) &&
            FftSpec(a, omega)[i + |a| / 2] == Sub(e[i], Mul(Pow(omega, i), o[i]))
  {
    var w2 := Pow(omega, 2);
    ButterflyAt(FftSpec(Evens(a), w2), FftSpec(Odds(a), w2), omega, i);
  }

  /** The split loop of sigprocess.c `FFT`: the even- and odd-indexed
      elements of a[..n] copied into two fresh arrays of n/2 elements. */
  method SplitEvenOdd(a: array<Complex>, n: int) returns (aEven: array<Complex>, aOdd: array<Complex>)
    requires 0 <= n <= a.Length && n % 2 == 0
    ensures fresh(aEven) && fresh(aOdd)
    ensures aEven.Length == n / 2 && aOdd.Length == n / 2
    ensures aEven[..] == Evens(a[..n]) && aOdd[..] == Odds(a[..n])
  {
    var m := n / 2;
    aEven := MakeComplexArray(m);
    aOdd := MakeComplexArray(m);
    var i := 0;
    while 2 * i < n
      invariant 0 <= i <= m
      invariant forall k :: 0 <= k < i ==> aEven[k] == a[2 * k] && aOdd[k] == a[2 * k + 1]
    {
      aEven[i] := a[2 * i];
      aOdd[i] := a[2 * i + 1];
      i := i + 1;
    }
  }

  /** The butterfly loop of sigprocess.c `FFT`: a fresh array of 2m
      elements; the twiddle x is omega^i at step i. */
  method Combine(yEven: array<Complex>, yOdd: array<Complex>, m: int, omega: Complex)
    returns (y: array<Complex>)
    requires 0 <= m <= yEven.Length && m <= yOdd.Length
    ensures fresh(y) && y.Length == 2 * m
    ensures y[..] == Butterfly(yEven[..m], yOdd[..m], omega)
  {
    ghost var e := yEven[..m];
    ghost var o := yOdd[..m];
    ghost var top: seq<Complex> := [];
    ghost var bottom: seq<Complex> := [];
    var x := Pow(omega, 0);
    y := MakeComplexArray(2 * m);
    var i := 0;
    while i < m
      invariant 0 <= i <= m
      invariant x == Pow(omega, i)
      invariant top == Top(e, o, omega, i) && bottom == Bottom(e, o, omega, i)
      invariant forall k :: 0 <= k < i ==> y[k] == top[k]
      invariant forall k :: m <= k < m + i ==> y[k] == bottom[k - m]
    {
      var hi, lo := Add(yEven[i], Mul(x, yOdd[i])), Sub(yEven[i], Mul(x, yOdd[i]));
      TopBottomNext(e, o, omega, i, x, hi, lo);
      y[i] := hi;
      y[i + m] := lo;
      top, bottom := top + [hi], bottom + [lo];
      assert Pow(omega, i + 1) == Mul(x, omega);
      x := Mul(x, omega);
      i := i + 1;
    }
    assert forall k :: 0 <= k < 2 * m ==> y[k] == (top + bottom)[k];
  }

  /** sigprocess.c `FFT`. With n == 1 the input array itself is returned;
      otherwise the halves are copied into fresh arrays, transformed
      recursively with omega^2 and combined into a fresh array. */
  method FFT(a: array<Complex>, n: int, omega: Complex) returns (y: array<Complex>)
    requires IsPow2(n) && n <= a.Length
    ensures n <= y.Length && y[..n] == FftSpec(a[..n], omega)
    ensures n == 1 ==> y == a
    ensures n > 1 ==> fresh(y) && y.Length == n
    decreases n
  {
    if n == 1 {
      return a;
    }
    var m := n / 2;
    var aEven, aOdd := SplitEvenOdd(a, n);
    var yEven := FFT(aEven, m, Pow(omega, 2));
    var yOdd := FFT(aOdd, m, Pow(omega, 2));
    assert aEven[..m] == aEven[..] && aOdd[..m] == aOdd[..];
    y := Combine(yEven, yOdd, m, omega);
    assert y[..n] == y[..];
  }

  // ---------------------------------------------------------------------
  // Linearity

  function Plus(a: seq<Complex>, b: seq<Complex>): (r: seq<Complex>)
    requires |a| == |b|
    ensures |r| == |a|
  {
    seq(|a|, i requires 0 <= i < |a| => Add(a[i], b[i]))
  }

  function Scale(c: Complex, a: seq<Complex>): (r: seq<Complex>)
    ensures |r| == |a|
  {
    seq(|a|, i requires 0 <= i < |a| => Mul(c, a[i]))
  }

  lemma {:induction false} TwiddleAddStep(e1: Complex, e2: Complex, t: Complex, o1: Complex, o2: Complex)
    ensures Add(Add(e1, e2), Mul(t, Add(o1, o2))) == Add(Add(e1, Mul(t, o1)), Add(e2, Mul(t, o2)))
    ensures Sub(Add(e1, e2), Mul(t, Add(o1, o2))) == Add(Sub(e1, Mul(t, o1)), Sub(e2, Mul(t, o2)))
  {
    MulAddRight(t, o1, o2);
  }

  lemma {:induction false} TwiddleScaleStep(c: Complex, e: Complex, t: Complex, o: Complex)
    ensures Add(Mul(c, e), Mul(t, Mul(c, o))) == Mul(c, Add(e, Mul(t, o)))
    ensures Sub(Mul(c, e), Mul(t, Mul(c, o))) == Mul(c, Sub(e, Mul(t, o)))
  {
    MulAssoc(t, c, o);
    MulComm(t, c);
    MulAssoc(c, t, o);
    MulAddRight(c, e, Mul(t, o));
    MulSubRight(c, e, Mul(t, o));
  }

  lemma {:induction false} ButterflyAdditive(e1: seq<Complex>, o1: seq<Complex>, e2: seq<Complex>, o2: seq<Complex>, w: Complex)
    requires |e1| == |o1| == |e2| == |o2|
    ensures Butterfly(Plus(e1, e2), Plus(o1, o2), w) == Plus(Butterfly(e1, o1, w), Butterfly(e2, o2, w))
  {
    var m := |e1|;
    forall k | 0 <= k < 2 * m
      ensures Butterfly(Plus(e1, e2), Plus(o1, o2), w)[k] == Plus(Butterfly(e1, o1, w), Butterfly(e2, o2, w))[k]
    {
      var i := if k < m then k else k - m;
      ButterflyAt(Plus(e1, e2), Plus(o1, o2), w, i);
      ButterflyAt(e1, o1, w, i);
      ButterflyAt(e2, o2, w, i);
      TwiddleAddStep(e1[i], e2[i], Pow(w, i), o1[i], o2[i]);
    }
  }

  lemma {:induction false} ButterflyHomogeneous(c: Complex, e: seq<Complex>, o: seq<Complex>, w: Complex)
    requires |e| == |o|
    ensures Butterfly(Scale(c, e), Scale(c, o), w) == Scale(c, Butterfly(e, o, w))
  {
    var m := |e|;
    forall k | 0 <= k < 2 * m
      ensures Butterfly(Scale(c, e), Scale(c, o), w)[k] == Scale(c, Butterfly(e, o, w))[k]
    {
      var i := if k < m then k else k - m;
      ButterflyAt(Scale(c, e), Scale(c, o), w, i);
      ButterflyAt(e, o, w, i);
      TwiddleScaleStep(c, e[i], Pow(w, i), o[i]);
    }
  }

  /** The halves of a sum are the sums of the halves. */
  lemma SplitPlus(a: seq<Complex>, b: seq<Complex>)
    requires |a| == |b|
    ensures Evens(Plus(a, b)) == Plus(Evens(a), Evens(b))
    ensures Odds(Plus(a, b)) == Plus(Odds(a), Odds(b))
  {
  }

  /** The halves of a scaled sequence are the scaled halves. */
  lemma SplitScale(c: Complex, a: seq<Complex>)
    ensures Evens(Scale(c, a)) == Scale(c, Evens(a))
    ensures Odds(Scale(c, a)) == Scale(c, Odds(a))
  {
  }

  /** The transform of a sum is the sum of the transforms. */
  lemma {:induction false} FftAdditive(a: seq<Complex>, b: seq<Complex>, omega: Complex)
    requires IsPow2(|a|) && |a| == |b|
    ensures FftSpec(Plus(a, b), omega) == Plus(FftSpec(a, omega), FftSpec(b, omega))
    decreases |a|
  {
    if |a| > 1 {
      var w2 := Pow(omega, 2);
      SplitPlus(a, b);
      FftAdditive(Evens(a), Evens(b), w2);
      FftAdditive(Odds(a), Odds(b), w2);
      ButterflyAdditive(FftSpec(Evens(a), w2), FftSpec(Odds(a), w2),
                        FftSpec(Evens(b), w2), FftSpec(Odds(b), w2), omega);
    }
  }

  /** The transform of a scaled sequence is the scaled transform. */
  lemma {:induction false} FftHomogeneous(c: Complex, a: seq<Complex>, omega: Complex)
    requires IsPow2(|a|)
    ensures FftSpec(Scale(c, a), omega) == Scale(c, FftSpec(a, omega))
    decreases |a|
  {
    if |a| > 1 {
      var w2 := Pow(omega, 2);
      SplitScale(c, a);
      FftHomogeneous(c, Evens(a), w2);
      FftHomogeneous(c, Odds(a), w2);
      ButterflyHomogeneous(c, FftSpec(Evens(a), w2), FftSpec(Odds(a), w2), omega);
    }
  }
}
