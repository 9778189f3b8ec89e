/** Finite sums of complex terms, f(0) + ... + f(n-1), and the
    rearrangements the convolution theorem needs: linearity, dropping zero
    terms, products of sums and exchanging the order of summation. Every
    family of terms is built by a named function, so that a sum unfolds to
    the same terms wherever it is mentioned. */
module Sums {
  import opened Complex

  /** f(0) + f(1) + ... + f(n-1), added left to right. */
  function Sigma(n: nat, f: nat -> Complex): Complex
  {
    if n == 0 then Zero else Add(Sigma(n - 1, f), f(n - 1))
  }

  // ---------------------------------------------------------------------
  // Two and three indices

  /** Row i of a two-index family of terms. */
  function Row(f: (nat, nat) -> Complex, i: nat): nat -> Complex
  {
    (j: nat) => f(i, j)
  }

  /** Column j of a two-index family of terms. */
  function Col(f: (nat, nat) -> Complex, j: nat): nat -> Complex
  {
    (i: nat) => f(i, j)
  }

  /** The family with its two indices exchanged. */
  function Transpose(f: (nat, nat) -> Complex): (nat, nat) -> Complex
  {
    (j: nat, i: nat) => f(i, j)
  }

  /** i |-> the sum of row i over j < m. */
  function RowSums(m: nat, f: (nat, nat) -> Complex): nat -> Complex
  {
    (i: nat) => Sigma(m, Row(f, i))
  }

  /** j |-> the sum of column j over i < n. */
  function ColSums(n: nat, f: (nat, nat) -> Complex): nat -> Complex
  {
    (j: nat) => Sigma(n, Col(f, j))
  }

  /** The double sum over i < n and j < m of f(i, j), i outermost. */
  function Sigma2(n: nat, m: nat, f: (nat, nat) -> Complex): Complex
  {
    Sigma(n, RowSums(m, f))
  }

  /** The two-index family F(k, _, _) of a three-index family. */
  function Slice(F: (nat, nat, nat) -> Complex, k: nat): (nat, nat) -> Complex
  {
    (j: nat, l: nat) => F(k, j, l)
  }

  /** The two-index family F(_, j, _). */
  function Middle(F: (nat, nat, nat) -> Complex, j: nat): (nat, nat) -> Complex
  {
    (k: nat, l: nat) => F(k, j, l)
  }

  /** The one-index family F(_, j, l). */
  function Fiber(F: (nat, nat, nat) -> Complex, j: nat, l: nat): nat -> Complex
  {
    (k: nat) => F(k, j, l)
  }

  /** k |-> the double sum of F(k, j, l) over j < m, l < p. */
  function SliceSums(m: nat, p: nat, F: (nat, nat, nat) -> Complex): nat -> Complex
  {
    (k: nat) => Sigma2(m, p, Slice(F, k))
  }

  /** The triple sum over k < n, j < m, l < p of F(k, j, l), k outermost. */
  function Sigma3(n: nat, m: nat, p: nat, F: (nat, nat, nat) -> Complex): Complex
  {
    Sigma(n, SliceSums(m, p, F))
  }

  /** (k, j) |-> the sum of F(k, j, l) over l < p. */
  function LastSums(p: nat, F: (nat, nat, nat) -> Complex): (nat, nat) -> Complex
  {
    (k: nat, j: nat) => Sigma(p, Row(Slice(F, k), j))
  }

  /** (j, l) |-> the sum of F(k, j, l) over k < n. */
  function FiberSums(n: nat, F: (nat, nat, nat) -> Complex): (nat, nat) -> Complex
  {
    (j: nat, l: nat) => Sigma(n, Fiber(F, j, l))
  }

  // ---------------------------------------------------------------------
  // Single sums

  /** Sums of terms that agree are equal. */
  lemma {:induction false} SigmaExt(n: nat, f: nat -> Complex, g: nat -> Complex)
    requires forall i: nat :: i < n ==> f(i) == g(i)
    ensures Sigma(n, f) == Sigma(n, g)
  {
    if n > 0 {
      SigmaExt(n - 1, f, g);
    }
  }

  /** The sum of termwise sums is the sum of the two sums. */
  lemma {:induction false} SigmaAdd(n: nat, f: nat -> Complex, g: nat -> Complex, h: nat -> Complex)
    requires forall i: nat :: i < n ==> h(i) == Add(f(i), g(i))
    ensures Sigma(n, h) == Add(Sigma(n, f), Sigma(n, g))
  {
    if n > 0 {
      SigmaAdd(n - 1, f, g, h);
    }
  }

  /** A common factor on the left comes out of the sum. */
  lemma {:induction false} SigmaScale(n: nat, c: Complex, f: nat -> Complex, g: nat -> Complex)
    requires forall i: nat :: i < n ==> g(i) == Mul(c, f(i))
    ensures Sigma(n, g) == Mul(c, Sigma(n, f))
  {
    if n == 0 {
      MulZero(c);
    } else {
      SigmaScale(n - 1, c, f, g);
      MulAddRight(c, Sigma(n - 1, f), f(n - 1));
    }
  }

  /** A sum of zeros is zero. */
  lemma {:induction false} SigmaZero(n: nat, f: nat -> Complex)
    requires forall i: nat :: i < n ==> f(i) == Zero
    ensures Sigma(n, f) == Zero
  {
    if n > 0 {
      SigmaZero(n - 1, f);
    }
  }

  /** Terms from index m on that are zero can be dropped. */
  lemma {:induction false} SigmaTail(n: nat, m: nat, f: nat -> Complex)
    requires m <= n
    requires forall i: nat :: m <= i < n ==> f(i) == Zero
    ensures Sigma(n, f) == Sigma(m, f)
    decreases n
  {
    if n > m {
      SigmaTail(n - 1, m, f);
    }
  }

  /** A sum whose only non-zero term is at p is that term. */
  lemma {:induction false} SigmaSingle(n: nat, p: nat, f: nat -> Complex)
    requires p < n
    requires forall i: nat :: i < n && i != p ==> f(i) == Zero
    ensures Sigma(n, f) == f(p)
  {
    if n - 1 == p {
      SigmaZero(p, f);
    } else {
      SigmaSingle(n - 1, p, f);
    }
  }

  // ---------------------------------------------------------------------
  // Double sums

  /** Double sums of terms that agree are equal. */
  lemma Sigma2Ext(n: nat, m: nat, f: (nat, nat) -> Complex, g: (nat, nat) -> Complex)
    requires forall i: nat, j: nat :: i < n && j < m ==> f(i, j) == g(i, j)
    ensures Sigma2(n, m, f) == Sigma2(n, m, g)
  {
    forall i: nat | i < n
      ensures RowSums(m, f)(i) == RowSums(m, g)(i)
    {
      SigmaExt(m, Row(f, i), Row(g, i));
    }
    SigmaExt(n, RowSums(m, f), RowSums(m, g));
  }

  /** Terms outside the first n' rows and m' columns that are zero can be
      dropped. */
  lemma Sigma2Tail(n: nat, m: nat, n': nat, m': nat, f: (nat, nat) -> Complex)
    requires n' <= n && m' <= m
    requires forall i: nat, j: nat :: i < n && j < m && (n' <= i || m' <= j) ==> f(i, j) == Zero
    ensures Sigma2(n, m, f) == Sigma2(n', m', f)
  {
    forall i: nat | i < n'
      ensures RowSums(m, f)(i) == RowSums(m', f)(i)
    {
      SigmaTail(m, m', Row(f, i));
    }
    forall i: nat | n' <= i < n
      ensures RowSums(m, f)(i) == Zero
    {
      SigmaZero(m, Row(f, i));
    }
    SigmaTail(n, n', RowSums(m, f));
    SigmaExt(n', RowSums(m, f), RowSums(m', f));
  }

  /** A common factor comes out of a double sum. */
  lemma Sigma2Scale(n: nat, m: nat, c: Complex, f: (nat, nat) -> Complex, g: (nat, nat) -> Complex)
    requires forall i: nat, j: nat :: i < n && j < m ==> g(i, j) == Mul(c, f(i, j))
    ensures Sigma2(n, m, g) == Mul(c, Sigma2(n, m, f))
  {
    forall i: nat | i < n
      ensures RowSums(m, g)(i) == Mul(c, RowSums(m, f)(i))
    {
      SigmaScale(m, c, Row(f, i), Row(g, i));
    }
    SigmaScale(n, c, RowSums(m, f), RowSums(m, g));
  }

  /** The product of two sums is the double sum of the products of their
      terms. */
  lemma SigmaProduct(n: nat, m: nat, f: nat -> Complex, g: nat -> Complex, h: (nat, nat) -> Complex)
    requires forall i: nat, j: nat :: i < n && j < m ==> h(i, j) == Mul(f(i), g(j))
    ensures Mul(Sigma(n, f), Sigma(m, g)) == Sigma2(n, m, h)
  {
    var sg := Sigma(m, g);
    forall i: nat | i < n
      ensures RowSums(m, h)(i) == Mul(sg, f(i))
    {
      SigmaScale(m, f(i), g, Row(h, i));
      MulComm(f(i), sg);
    }
    SigmaScale(n, sg, f, RowSums(m, h));
    MulComm(Sigma(n, f), sg);
  }

  /** The double sum of the transpose is the sum of the column sums. */
  lemma TransposeRows(n: nat, m: nat, f: (nat, nat) -> Complex)
    ensures Sigma2(m, n, Transpose(f)) == Sigma(m, ColSums(n, f))
  {
    forall j: nat | j < m
      ensures RowSums(n, Transpose(f))(j) == ColSums(n, f)(j)
    {
      SigmaExt(n, Row(Transpose(f), j), Col(f, j));
    }
    SigmaExt(m, RowSums(n, Transpose(f)), ColSums(n, f));
  }

  /** Adding a row adds its sum to the sum of the column sums. */
  lemma SigmaSwapStep(n: nat, m: nat, f: (nat, nat) -> Complex)
    ensures Sigma(m, ColSums(n + 1, f)) == Add(Sigma(m, ColSums(n, f)), Sigma(m, Row(f, n)))
  {
    SigmaAdd(m, ColSums(n, f), Row(f, n), ColSums(n + 1, f));
  }

  /** The order of summation of a double sum can be exchanged. */
  lemma {:induction false} SigmaSwap(n: nat, m: nat, f: (nat, nat) -> Complex)
    ensures Sigma2(n, m, f) == Sigma2(m, n, Transpose(f))
  {
    TransposeRows(n, m, f);
    if n > 0 {
      SigmaSwap(n - 1, m, f);
      TransposeRows(n - 1, m, f);
      SigmaSwapStep(n - 1, m, f);
    } else {
      SigmaZero(m, ColSums(n, f));
    }
  }

  // ---------------------------------------------------------------------
  // Triple sums

  /** Summing the innermost index first leaves a double sum. */
  lemma Sigma3Inner(n: nat, m: nat, p: nat, F: (nat, nat, nat) -> Complex)
    ensures Sigma3(n, m, p, F) == Sigma2(n, m, LastSums(p, F))
  {
    var G := LastSums(p, F);
    forall k: nat | k < n
      ensures SliceSums(m, p, F)(k) == RowSums(m, G)(k)
    {
      SigmaExt(m, RowSums(p, Slice(F, k)), Row(G, k));
    }
    SigmaExt(n, SliceSums(m, p, F), RowSums(m, G));
  }

  /** For a fixed middle index j, the sum over k of the sums over l is the
      sum over l of the sums over k. */
  lemma Sigma3Middle(n: nat, p: nat, F: (nat, nat, nat) -> Complex, j: nat)
    ensures Sigma(n, Row(Transpose(LastSums(p, F)), j)) == Sigma(p, Row(FiberSums(n, F), j))
  {
    var H := Middle(F, j);
    forall k: nat | k < n
      ensures Row(Transpose(LastSums(p, F)), j)(k) == RowSums(p, H)(k)
    {
      SigmaExt(p, Row(Slice(F, k), j), Row(H, k));
    }
    SigmaExt(n, Row(Transpose(LastSums(p, F)), j), RowSums(p, H));
    SigmaSwap(n, p, H);
    forall l: nat | l < p
      ensures RowSums(n, Transpose(H))(l) == Row(FiberSums(n, F), j)(l)
    {
      SigmaExt(n, Row(Transpose(H), l), Fiber(F, j, l));
    }
    SigmaExt(p, RowSums(n, Transpose(H)), Row(FiberSums(n, F), j));
  }

  /** A triple sum with its outermost index moved innermost. */
  lemma Sigma3Rotate(n: nat, m: nat, p: nat, F: (nat, nat, nat) -> Complex)
    ensures Sigma3(n, m, p, F) == Sigma2(m, p, FiberSums(n, F))
  {
    var G := LastSums(p, F);
    Sigma3Inner(n, m, p, F);
    SigmaSwap(n, m, G);
    forall j: nat | j < m
      ensures RowSums(n, Transpose(G))(j) == RowSums(p, FiberSums(n, F))(j)
    {
      Sigma3Middle(n, p, F, j);
    }
    SigmaExt(m, RowSums(n, Transpose(G)), RowSums(p, FiberSums(n, F)));
  }
}
