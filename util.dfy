/** The integer and array helpers of util.c: power-of-two rounding, buffer
    allocation and resizing, means, type conversions and approximate equality.
    C arrays become Dafny arrays; the `len` parameters of the C functions are
    kept, with a precondition that the array holds that many elements. */
module Util {
  import opened Complex

  // ---------------------------------------------------------------------
  // Powers of two

  /** n is 2^k for some natural k. */
  predicate IsPow2(n: int)
    decreases if n < 0 then 0 else n
  {
    n == 1 || (n >= 2 && n % 2 == 0 && IsPow2(n / 2))
  }

  /** The least power of two that is at least n (1 when n <= 1). */
  function NextPow2(n: int): (p: nat)
    ensures IsPow2(p) && n <= p
    ensures p == 1 || p / 2 < n
    decreases if n < 0 then 0 else n
  {
    if n <= 1 then 1 else 2 * NextPow2((n + 1) / 2)
  }

  /** Two powers of two: the smaller one is at most half of the larger one. */
  lemma {:induction false} Pow2Below(p: int, q: int)
    requires IsPow2(p) && IsPow2(q) && q < p
    ensures IsPow2(p / 2) && q <= p / 2
    decreases p
  {
    if q > 1 && p / 2 > 1 {
      Pow2Below(p / 2, q / 2);
    }
  }

  /** NextPow2(n) is below every power of two that is at least n. */
  lemma NextPow2Least(n: int, q: int)
    requires IsPow2(q) && n <= q
    ensures NextPow2(n) <= q
  {
    var p := NextPow2(n);
    if q < p {
      Pow2Below(p, q);
    }
  }

  /** The rounding is the identity exactly on powers of two. */
  lemma NextPow2Fixed(n: int)
    ensures NextPow2(n) == n <==> IsPow2(n)
  {
    if IsPow2(n) {
      NextPow2Least(n, n);
    }
  }

  /** Rounding twice is rounding once. */
  lemma NextPow2Idempotent(n: int)
    ensures NextPow2(NextPow2(n)) == NextPow2(n)
  {
    NextPow2Fixed(NextPow2(n));
  }

  /** Two powers of two of which the second is the least one at or above n. */
  lemma Pow2LeastUnique(n: int, p: int)
    requires IsPow2(p) && n <= p && (p == 1 || p / 2 < n)
    ensures p == NextPow2(n)
  {
    var q := NextPow2(n);
    if p < q {
      Pow2Below(q, p);
    } else if q < p {
      Pow2Below(p, q);
    }
  }

  /** util.c `powerOfTwo`: doubles p2 from 1 until it reaches n. */
  method PowerOfTwo(n: int) returns (p2: int)
    ensures IsPow2(p2) && n <= p2
    ensures p2 == 1 || p2 / 2 < n
    ensures p2 == NextPow2(n)
  {
    p2 := 1;
    while p2 < n
      invariant IsPow2(p2)
      invariant p2 == 1 || p2 / 2 < n
      decreases n - p2
    {
      p2 := p2 * 2;
    }
    Pow2LeastUnique(n, p2);
  }

  // ---------------------------------------------------------------------
  // Allocation (calloc: every element zero)

  method MakeIntArray(n: nat) returns (a: array<int>)
    ensures fresh(a) && a.Length == n
    ensures forall i :: 0 <= i < n ==> a[i] == 0
  {
    a := new int[n](_ => 0);
  }

  method MakeDoubleArray(n: nat) returns (a: array<real>)
    ensures fresh(a) && a.Length == n
    ensures forall i :: 0 <= i < n ==> a[i] == 0.0
  {
    a := new real[n](_ => 0.0);
  }

  method MakeComplexArray(n: nat) returns (a: array<Complex>)
    ensures fresh(a) && a.Length == n
    ensures forall i :: 0 <= i < n ==> a[i] == Zero
  {
    a := new Complex[n](_ => Zero);
  }

  /** util.c `padArray`, a realloc to newLen elements: the first
      min(arr.Length, newLen) elements are kept; nothing is promised about
      the elements after them. */
  method PadArray(arr: array<Complex>, newLen: nat) returns (r: array<Complex>)
    ensures fresh(r) && r.Length == newLen
    ensures forall i :: 0 <= i < arr.Length && i < newLen ==> r[i] == arr[i]
  {
    r := new Complex[newLen];
    var i := 0;
    while i < arr.Length && i < newLen
      invariant 0 <= i <= arr.Length && i <= newLen
      invariant forall k :: 0 <= k < i ==> r[k] == arr[k]
    {
      r[i] := arr[i];
      i := i + 1;
    }
  }

  /** The padding `convolveFFT` and `correlateFFT` need: the first len
      elements of arr, then zeros up to newLen. */
  method ZeroPadArray(arr: array<Complex>, len: int, newLen: int) returns (r: array<Complex>)
    requires 0 <= len <= arr.Length && len <= newLen
    ensures fresh(r) && r.Length == newLen
    ensures forall i :: 0 <= i < len ==> r[i] == arr[i]
    ensures forall i :: len <= i < newLen ==> r[i] == Zero
  {
    r := MakeComplexArray(newLen);
    var i := 0;
    while i < len
      invariant 0 <= i <= len
      invariant forall k :: 0 <= k < i ==> r[k] == arr[k]
      invariant forall k :: len <= k < newLen ==> r[k] == Zero
    {
      r[i] := arr[i];
      i := i + 1;
    }
  }

  // ---------------------------------------------------------------------
  // Sums and means

  /** Left-to-right sum, in the order the C loops accumulate. */
  function Sum(s: seq<real>): real {
    if |s| == 0 then 0.0 else Sum(s[..|s| - 1]) + s[|s| - 1]
  }

  function Mean(s: seq<real>): real
    requires |s| > 0
  {
    Sum(s) / |s| as real
  }

  /** The sum of n copies of c is n * c. */
  lemma {:induction false} SumConstant(s: seq<real>, c: real)
    requires forall i :: 0 <= i < |s| ==> s[i] == c
    ensures Sum(s) == |s| as real * c
  {
    if |s| > 0 {
      SumConstant(s[..|s| - 1], c);
    }
  }

  /** The mean of a constant sequence is that constant. */
  lemma MeanConstant(s: seq<real>, c: real)
    requires |s| > 0
    requires forall i :: 0 <= i < |s| ==> s[i] == c
    ensures Mean(s) == c
  {
    SumConstant(s, c);
  }

  /** util.c `average`: sum of the first len elements divided by len. */
  method Average(arr: array<real>, len: int) returns (r: real)
    requires 0 < len <= arr.Length
    ensures r == Mean(arr[..len])
  {
    var sum := 0.0;
    var i := 0;
    while i < len
      invariant 0 <= i <= len
      invariant sum == Sum(arr[..i])
    {
      assert arr[..i + 1][..i] == arr[..i];
      sum := sum + arr[i];
      i := i + 1;
    }
    r := sum / len as real;
  }

  /** util.c `getXBar`: the mean of the window x[d .. d + lenH); lenX is
      not used. */
  method GetXBar(x: array<real>, lenX: int, lenH: int, d: int) returns (r: real)
    requires 0 < lenH && 0 <= d && d + lenH <= x.Length
    ensures r == Mean(x[d..d + lenH])
  {
    var overlap := MakeDoubleArray(lenH);
    var i := 0;
    while i < lenH
      invariant 0 <= i <= lenH
      invariant overlap[..i] == x[d..d + i]
    {
      overlap[i] := x[i + d];
      i := i + 1;
    }
    assert overlap[..lenH] == x[d..d + lenH];
    r := Average(overlap, lenH);
  }

  // ---------------------------------------------------------------------
  // Conversions

  /** C's conversion of a double to an int: truncation toward zero. */
  function TruncToInt(r: real): (k: int)
    ensures 0.0 <= r ==> k as real <= r < k as real + 1.0
    ensures r < 0.0 ==> k as real - 1.0 < r <= k as real
  {
    if r >= 0.0 then r.Floor else -((-r).Floor)
  }

  /** An integer converted to a double and back is unchanged. */
  lemma TruncOfInt(k: int)
    ensures TruncToInt(k as real) == k
  {
  }

  method DoubleToInt(arr: array<real>, len: nat) returns (b: array<int>)
    requires len <= arr.Length
    ensures fresh(b) && b.Length == len
    ensures forall i :: 0 <= i < len ==> b[i] == TruncToInt(arr[i])
  {
    b := MakeIntArray(len);
    var i := 0;
    while i < len
      invariant 0 <= i <= len
      invariant forall k :: 0 <= k < i ==> b[k] == TruncToInt(arr[k])
    {
      b[i] := TruncToInt(arr[i]);
      i := i + 1;
    }
  }

  method IntToDouble(arr: array<int>, len: nat) returns (b: array<real>)
    requires len <= arr.Length
    ensures fresh(b) && b.Length == len
    ensures forall i :: 0 <= i < len ==> b[i] == arr[i] as real
  {
    b := MakeDoubleArray(len);
    var i := 0;
    while i < len
      invariant 0 <= i <= len
      invariant forall k :: 0 <= k < i ==> b[k] == arr[k] as real
    {
      b[i] := arr[i] as real;
      i := i + 1;
    }
  }

  /** `r + 0*I` is the real number r. */
  lemma RealPlusZeroI(r: real)
    ensures Add(OfReal(r), Mul(OfReal(0.0), I)) == OfReal(r)
  {
  }

  /** Each element becomes `arr[i] + 0*I`, which RealPlusZeroI shows is the
      real number arr[i]. */
  method DoubleToComplex(arr: array<real>, len: nat) returns (b: array<Complex>)
    requires len <= arr.Length
    ensures fresh(b) && b.Length == len
    ensures forall i :: 0 <= i < len ==> b[i] == OfReal(arr[i])
  {
    b := MakeComplexArray(len);
    var i := 0;
    while i < len
      invariant 0 <= i <= len
      invariant forall k :: 0 <= k < i ==> b[k] == OfReal(arr[k])
    {
      b[i] := OfReal(arr[i]);
      i := i + 1;
    }
  }

  method IntToComplex(arr: array<int>, len: nat) returns (b: array<Complex>)
    requires len <= arr.Length
    ensures fresh(b) && b.Length == len
    ensures forall i :: 0 <= i < len ==> b[i] == OfReal(arr[i] as real)
  {
    b := MakeComplexArray(len);
    var i := 0;
    while i < len
      invariant 0 <= i <= len
      invariant forall k :: 0 <= k < i ==> b[k] == OfReal(arr[k] as real)
    {
      b[i] := OfReal(arr[i] as real);
      i := i + 1;
    }
  }

  /** Keeps the real part of each element, truncated toward zero. */
  method ComplexToInt(arr: array<Complex>, len: nat) returns (b: array<int>)
    requires len <= arr.Length
    ensures fresh(b) && b.Length == len
    ensures forall i :: 0 <= i < len ==> b[i] == TruncToInt(arr[i].re)
  {
    b := MakeIntArray(len);
    var i := 0;
    while i < len
      invariant 0 <= i <= len
      invariant forall k :: 0 <= k < i ==> b[k] == TruncToInt(arr[k].re)
    {
      b[i] := TruncToInt(arr[i].re);
      i := i + 1;
    }
  }

  // ---------------------------------------------------------------------
  // Approximate equality

  function Abs(r: real): (a: real)
    ensures 0.0 <= a && (a == r || a == -r)
  {
    if r < 0.0 then -r else r
  }

  /** util.c `dequal`: a and b are closer than epsilon. */
  function Dequal(a: real, b: real, epsilon: real): (eq: bool)
    ensures eq <==> a - epsilon < b < a + epsilon
  {
    Abs(a - b) < epsilon
  }

  lemma DequalSymmetric(a: real, b: real, epsilon: real)
    ensures Dequal(a, b, epsilon) == Dequal(b, a, epsilon)
  {
  }

  /** Every value is approximately equal to itself exactly when epsilon is
      positive: the comparison is strict. */
  lemma DequalReflexive(a: real, epsilon: real)
    ensures Dequal(a, a, epsilon) <==> 0.0 < epsilon
  {
  }
}
