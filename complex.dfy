/** Exact complex arithmetic standing in for C's `complex double`.
    Components are Dafny reals, so every identity below holds exactly;
    rounding is not modelled. */
module Complex {

  datatype Complex = Complex(re: real, im: real)

  const Zero: Complex := Complex(0.0, 0.0)
  const One: Complex := Complex(1.0, 0.0)
  const MinusOne: Complex := Complex(-1.0, 0.0)
  /** The imaginary unit, C's `I`. */
  const I: Complex := Complex(0.0, 1.0)

  function Add(a: Complex, b: Complex): Complex
  {
    Complex(a.re + b.re, a.im + b.im)
  }

  function Sub(a: Complex, b: Complex): Complex
  {
    Complex(a.re - b.re, a.im - b.im)
  }

  function Neg(a: Complex): Complex
  {
    Complex(-a.re, -a.im)
  }

  function Mul(a: Complex, b: Complex): Complex
  {
    Complex(a.re * b.re - a.im * b.im, a.re * b.im + a.im * b.re)
  }

  /** C's `conj`. */
  function Conj(a: Complex): Complex
  {
    Complex(a.re, -a.im)
  }

  /** A real number as a complex one, imaginary part zero. */
  function OfReal(r: real): Complex
  {
    Complex(r, 0.0)
  }

  /** C's `cpow(w, k)` for a natural exponent, taken as the exact power. */
  function Pow(w: Complex, k: nat): Complex
  {
    if k == 0 then One else Mul(Pow(w, k - 1), w)
  }

  // ---------------------------------------------------------------------
  // Field laws used by the transform proofs.

  lemma MulComm(a: Complex, b: Complex)
    ensures Mul(a, b) == Mul(b, a)
  {
  }

  lemma MulAssoc(a: Complex, b: Complex, c: Complex)
    ensures Mul(Mul(a, b), c) == Mul(a, Mul(b, c))
  {
  }

  lemma MulAddRight(a: Complex, b: Complex, c: Complex)
    ensures Mul(a, Add(b, c)) == Add(Mul(a, b), Mul(a, c))
  {
  }

  lemma MulSubRight(a: Complex, b: Complex, c: Complex)
    ensures Mul(a, Sub(b, c)) == Sub(Mul(a, b), Mul(a, c))
  {
  }

  /** The middle factors of a product of two products can be exchanged. */
  lemma MulMiddle(a: Complex, b: Complex, c: Complex, d: Complex)
    ensures Mul(Mul(a, b), Mul(c, d)) == Mul(Mul(a, c), Mul(b, d))
  {
  }

  lemma MulLeftComm(a: Complex, b: Complex, c: Complex)
    ensures Mul(a, Mul(b, c)) == Mul(b, Mul(a, c))
  {
    MulAssoc(a, b, c);
    MulComm(a, b);
    MulAssoc(b, a, c);
  }

  lemma MulOne(a: Complex)
    ensures Mul(a, One) == a && Mul(One, a) == a
  {
  }

  lemma MulZero(a: Complex)
    ensures Mul(a, Zero) == Zero && Mul(Zero, a) == Zero
  {
  }

  lemma MulNeg(a: Complex, b: Complex)
    ensures Mul(Neg(a), b) == Neg(Mul(a, b)) && Mul(a, Neg(b)) == Neg(Mul(a, b))
  {
  }

  lemma MulMinusOne(a: Complex)
    ensures Mul(a, MinusOne) == Neg(a)
  {
  }

  lemma ConjMul(a: Complex, b: Complex)
    ensures Conj(Mul(a, b)) == Mul(Conj(a), Conj(b))
  {
  }

  // ---------------------------------------------------------------------
  // Powers.

  /** w^(a+b) = w^a * w^b. */
  lemma {:induction false} PowAdd(w: Complex, a: nat, b: nat)
    ensures Pow(w, a + b) == Mul(Pow(w, a), Pow(w, b))
    decreases b
  {
    if b == 0 {
      MulOne(Pow(w, a));
    } else {
      PowAdd(w, a, b - 1);
      MulAssoc(Pow(w, a), Pow(w, b - 1), w);
    }
  }

  lemma NatProduct(a: nat, b: nat)
    ensures 0 <= a * b
  {
  }

  /** w^(a*b) = (w^a)^b. */
  lemma {:induction false} PowMul(w: Complex, a: nat, b: nat)
    ensures Pow(w, a * b) == Pow(Pow(w, a), b)
    decreases b
  {
    NatProduct(a, b);
    if b != 0 {
      PowMul(w, a, b - 1);
      NatProduct(a, b - 1);
      var c: nat := a * (b - 1);
      assert a * b == c + a;
      PowAdd(w, c, a);
    }
  }

  /** Squaring the root halves the length of the period: (w*w)^k = w^(2k). */
  lemma PowSquare(w: Complex, k: nat)
    ensures Pow(Mul(w, w), k) == Pow(w, 2 * k)
  {
    calc {
      Pow(w, 2);
      Mul(Pow(w, 1), w);
      { assert Pow(w, 1) == Mul(One, w); MulOne(w); }
      Mul(w, w);
    }
    PowMul(w, 2, k);
  }

  /** A power of a product is the product of the powers. */
  lemma {:induction false} PowOfMul(a: Complex, b: Complex, k: nat)
    ensures Pow(Mul(a, b), k) == Mul(Pow(a, k), Pow(b, k))
    decreases k
  {
    if k == 0 {
      MulOne(One);
    } else {
      PowOfMul(a, b, k - 1);
      var pa, pb := Pow(a, k - 1), Pow(b, k - 1);
      calc {
        Pow(Mul(a, b), k);
        Mul(Mul(pa, pb), Mul(a, b));
        { MulAssoc(pa, pb, Mul(a, b)); }
        Mul(pa, Mul(pb, Mul(a, b)));
        { MulAssoc(pb, a, b); MulComm(pb, a); MulAssoc(a, pb, b); }
        Mul(pa, Mul(a, Mul(pb, b)));
        { MulAssoc(pa, a, Mul(pb, b)); }
        Mul(Pow(a, k), Pow(b, k));
      }
    }
  }

  /** Every power of one is one (u is one, named so that the power is not
      of a literal). */
  lemma {:induction false} PowUnit(u: Complex, k: nat)
    requires u == One
    ensures Pow(u, k) == u
  {
    if k != 0 {
      PowUnit(u, k - 1);
      assert Mul(One, One) == One;
    }
  }

  /** The powers of a square root of one alternate between one and it. */
  lemma {:induction false} PowInvolution(v: Complex, e: nat)
    requires Mul(v, v) == One
    ensures Pow(v, e) == if e % 2 == 0 then One else v
  {
    if e > 0 {
      PowInvolution(v, e - 1);
      assert Pow(v, e) == Mul(Pow(v, e - 1), v);
      if e % 2 == 1 {
        assert Mul(One, v) == v;
      }
    }
  }

  /** Conjugation commutes with powers. */
  lemma {:induction false} ConjPow(w: Complex, k: nat)
    ensures Conj(Pow(w, k)) == Pow(Conj(w), k)
  {
    if k != 0 {
      ConjPow(w, k - 1);
      ConjMul(Pow(w, k - 1), w);
    }
  }
}
