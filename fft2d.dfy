/** The 2-D transform of sigprocess.c (`FFT2D`): every row of the matrix is
    replaced by its transform, then every column of the result. The C
    overwrites `matrix[row][col]` in place through a reused `temp` buffer;
    here the matrix is an `array2` indexed [row, col], with Length0 == height
    and Length1 == width.

    The column pass of the C calls the kernel with length `width` on a buffer
    of `height` elements. ColumnPass takes that length as a parameter n:
    FFT2DAsWritten passes `width`, as the C does, and FFT2D passes `height`. */
module Fft2D {
  import opened Complex
  import opened Util
  import opened Fft
  import opened DiscreteFourier

  // ---------------------------------------------------------------------
  // Matrices as values

  /** Every row of m has w elements. */
  predicate Rect(m: seq<seq<Complex>>, w: nat) {
    forall r :: 0 <= r < |m| ==> |m[r]| == w
  }

  /** The contents of an array2, row by row. */
  function Grid(a: array2<Complex>): (g: seq<seq<Complex>>)
    reads a
    ensures |g| == a.Length0 && Rect(g, a.Length1)
  {
    seq(a.Length0, r requires 0 <= r < a.Length0 reads a =>
      seq(a.Length1, c requires 0 <= c < a.Length1 reads a => a[r, c]))
  }

  /** Column c of a matrix whose rows have w elements. */
  function Column(m: seq<seq<Complex>>, w: nat, c: nat): (col: seq<Complex>)
    requires Rect(m, w) && c < w
    ensures |col| == |m|
  {
    seq(|m|, r requires 0 <= r < |m| => m[r][c])
  }

  /** The row pass: every row replaced by its transform. */
  function RowFft(m: seq<seq<Complex>>, w: nat, omega: Complex): (t: seq<seq<Complex>>)
    requires Rect(m, w) && IsPow2(w)
    ensures |t| == |m| && Rect(t, w)
  {
    seq(|m|, r requires 0 <= r < |m| => FftSpec(m[r], omega))
  }

  /** What a column becomes when the kernel is run on it with length n: its
      first n elements are transformed and the rest are left as they were. */
  function ColumnFft(col: seq<Complex>, n: nat, omega: Complex): (t: seq<Complex>)
    requires IsPow2(n) && n <= |col|
    ensures |t| == |col|
  {
    FftSpec(col[..n], omega) + col[n..]
  }

  /** The column pass with kernel length n: every column c replaced by
      ColumnFft(column c). */
  function ColumnPassSpec(m: seq<seq<Complex>>, w: nat, n: nat, omega: Complex): (t: seq<seq<Complex>>)
    requires Rect(m, w) && IsPow2(n) && n <= |m|
    ensures |t| == |m| && Rect(t, w)
  {
    seq(|m|, r requires 0 <= r < |m| =>
      seq(w, c requires 0 <= c < w => ColumnFft(Column(m, w, c), n, omega)[r]))
  }

  /** The separable 2-D transform: rows, then columns of full length. */
  function Fft2DSpec(m: seq<seq<Complex>>, w: nat, omega: Complex): (t: seq<seq<Complex>>)
    requires Rect(m, w) && IsPow2(w) && IsPow2(|m|)
    ensures |t| == |m| && Rect(t, w)
  {
    ColumnPassSpec(RowFft(m, w, omega), w, |m|, omega)
  }

  /** The transform the C computes: rows, then columns with length w. It is
      in bounds only when w == |m|, or w == 1 <= |m|. */
  function Fft2DAsWrittenSpec(m: seq<seq<Complex>>, w: nat, omega: Complex): (t: seq<seq<Complex>>)
    requires Rect(m, w) && IsPow2(w) && (w == |m| || 1 == w <= |m|)
    ensures |t| == |m| && Rect(t, w)
  {
    ColumnPassSpec(RowFft(m, w, omega), w, w, omega)
  }

  // ---------------------------------------------------------------------
  // The passes in place

  /** An array2 that agrees with g at every index holds g. */
  lemma GridIs(a: array2<Complex>, g: seq<seq<Complex>>)
    requires |g| == a.Length0 && Rect(g, a.Length1)
    requires forall r, c :: 0 <= r < a.Length0 && 0 <= c < a.Length1 ==> a[r, c] == g[r][c]
    ensures Grid(a) == g
  {
    forall r | 0 <= r < a.Length0
      ensures Grid(a)[r] == g[r]
    {
    }
  }

  /** The inner copy loop `temp[col] = matrix[row][col]`. */
  method ReadRow(matrix: array2<Complex>, row: int, temp: array<Complex>)
    requires 0 <= row < matrix.Length0 && temp.Length == matrix.Length1
    modifies temp
    ensures temp[..] == Grid(matrix)[row]
  {
    var col := 0;
    while col < temp.Length
      invariant 0 <= col <= temp.Length
      invariant forall c :: 0 <= c < col ==> temp[c] == matrix[row, c]
    {
      temp[col] := matrix[row, col];
      col := col + 1;
    }
  }

  /** The inner copy loop `matrix[row][col] = temp[col]`: row `row` becomes
      the first width elements of temp and no other row changes. */
  method WriteRow(matrix: array2<Complex>, row: int, temp: array<Complex>)
    requires 0 <= row < matrix.Length0 && matrix.Length1 <= temp.Length
    modifies matrix
    ensures forall r, c :: 0 <= r < matrix.Length0 && 0 <= c < matrix.Length1 ==>
              matrix[r, c] == if r == row then temp[c] else old(matrix[r, c])
  {
    var col := 0;
    while col < matrix.Length1
      invariant 0 <= col <= matrix.Length1
      invariant forall r, c :: 0 <= r < matrix.Length0 && 0 <= c < matrix.Length1 ==>
                  matrix[r, c] == if r == row && c < col then temp[c] else old(matrix[r, c])
    {
      matrix[row, col] := temp[col];
      col := col + 1;
    }
  }

  /** The inner copy loop `temp[row] = matrix[row][col]`. */
  method ReadColumn(matrix: array2<Complex>, col: int, temp: array<Complex>)
    requires 0 <= col < matrix.Length1 && temp.Length == matrix.Length0
    modifies temp
    ensures temp[..] == Column(Grid(matrix), matrix.Length1, col)
  {
    var row := 0;
    while row < temp.Length
      invariant 0 <= row <= temp.Length
      invariant forall r :: 0 <= r < row ==> temp[r] == matrix[r, col]
    {
      temp[row] := matrix[row, col];
      row := row + 1;
    }
  }

  /** The inner copy loop `matrix[row][col] = temp[row]`: column `col`
      becomes the first height elements of temp and no other column
      changes. */
  method WriteColumn(matrix: array2<Complex>, col: int, temp: array<Complex>)
    requires 0 <= col < matrix.Length1 && matrix.Length0 <= temp.Length
    modifies matrix
    ensures forall r, c :: 0 <= r < matrix.Length0 && 0 <= c < matrix.Length1 ==>
              matrix[r, c] == if c == col then temp[r] else old(matrix[r, c])
  {
    var row := 0;
    while row < matrix.Length0
      invariant 0 <= row <= matrix.Length0
      invariant forall r, c :: 0 <= r < matrix.Length0 && 0 <= c < matrix.Length1 ==>
                  matrix[r, c] == if c == col && r < row then temp[r] else old(matrix[r, c])
    {
      matrix[row, col] := temp[row];
      row := row + 1;
    }
  }

  /** One iteration of the row pass: row `row` is read into temp, the
      kernel is run on it, and the result is written back; no other row
      changes. The kernel's result is the new temp. */
  method TransformRow(matrix: array2<Complex>, row: int, temp: array<Complex>, omega: Complex)
    returns (temp': array<Complex>)
    requires 0 <= row < matrix.Length0 && temp.Length == matrix.Length1 && IsPow2(temp.Length)
    modifies matrix, temp
    ensures temp'.Length == temp.Length && (fresh(temp') || temp' == temp)
    ensures forall r, c :: 0 <= r < matrix.Length0 && 0 <= c < matrix.Length1 ==>
              matrix[r, c] == if r == row then FftSpec(old(Grid(matrix))[row], omega)[c] else old(matrix[r, c])
  {
    ghost var g := Grid(matrix);
    ReadRow(matrix, row, temp);
    temp' := FFT(temp, temp.Length, omega);
    assert temp[..temp.Length] == g[row];
    assert forall c :: 0 <= c < temp.Length ==> temp'[c] == FftSpec(g[row], omega)[c];
    WriteRow(matrix, row, temp');
  }

  /** The row pass of sigprocess.c `FFT2D`: each row is copied into temp,
      transformed, and copied back. */
  method RowPass(matrix: array2<Complex>, width: int, height: int, omega: Complex)
    requires matrix.Length0 == height && matrix.Length1 == width && IsPow2(width)
    modifies matrix
    ensures Grid(matrix) == RowFft(old(Grid(matrix)), width, omega)
  {
    ghost var m := Grid(matrix);
    var temp := MakeComplexArray(width);
    var row := 0;
    while row < height
      invariant 0 <= row <= height
      invariant fresh(temp) && temp.Length == width
      invariant forall r, c :: 0 <= r < row && 0 <= c < width ==> matrix[r, c] == FftSpec(m[r], omega)[c]
      invariant forall r, c :: row <= r < height && 0 <= c < width ==> matrix[r, c] == m[r][c]
    {
      assert Grid(matrix)[row] == m[row];
      temp := TransformRow(matrix, row, temp, omega);
      row := row + 1;
    }
    GridIs(matrix, RowFft(m, width, omega));
  }

  /** Element `row` of the column after the kernel has been run on temp with
      length n: for n == 1 the kernel returns temp itself, untouched. */
  lemma ColumnFftAt(col: seq<Complex>, n: nat, omega: Complex, y: seq<Complex>, row: nat)
    requires IsPow2(n) && (n == |col| || n == 1) && row < |col| && n <= |y|
    requires y[..n] == FftSpec(col[..n], omega)
    requires n == 1 ==> y == col
    ensures y[row] == ColumnFft(col, n, omega)[row]
  {
    if n == 1 {
      assert FftSpec(col[..1], omega) == col[..1];
    } else {
      assert y[row] == y[..n][row];
    }
  }

  /** One iteration of the column pass: column `col` is read into temp,
      the kernel is run on it with length n, and the first height elements
      of the result are written back; no other column changes. The
      kernel's result is the new temp. */
  method TransformColumn(matrix: array2<Complex>, col: int, temp: array<Complex>, n: int, omega: Complex)
    returns (temp': array<Complex>)
    requires 0 <= col < matrix.Length1 && temp.Length == matrix.Length0
    requires IsPow2(n) && (n == temp.Length || 1 == n <= temp.Length)
    modifies matrix, temp
    ensures temp'.Length == temp.Length && (fresh(temp') || temp' == temp)
    ensures forall r, c :: 0 <= r < matrix.Length0 && 0 <= c < matrix.Length1 ==>
              matrix[r, c] == if c == col then ColumnFft(Column(old(Grid(matrix)), matrix.Length1, col), n, omega)[r]
                              else old(matrix[r, c])
  {
    ghost var column := Column(Grid(matrix), matrix.Length1, col);
    ReadColumn(matrix, col, temp);
    assert temp[..n] == column[..n];
    temp' := FFT(temp, n, omega);
    assert n == 1 ==> temp'[..] == column;
    forall r | 0 <= r < temp.Length
      ensures temp'[r] == ColumnFft(column, n, omega)[r]
    {
      ColumnFftAt(column, n, omega, temp'[..], r);
    }
    WriteColumn(matrix, col, temp');
  }

  /** The column pass of sigprocess.c `FFT2D`, with kernel length n: each
      column is copied into temp, the kernel is run on temp with length n,
      and the height elements of the result are copied back. This is in
      bounds only when n == height or n == 1. */
  method ColumnPass(matrix: array2<Complex>, width: int, height: int, n: int, omega: Complex)
    requires matrix.Length0 == height && matrix.Length1 == width
    requires IsPow2(n) && (n == height || 1 == n <= height)
    modifies matrix
    ensures Grid(matrix) == ColumnPassSpec(old(Grid(matrix)), width, n, omega)
  {
    ghost var m := Grid(matrix);
    var temp := MakeComplexArray(height);
    var col := 0;
    while col < width
      invariant 0 <= col <= width
      invariant fresh(temp) && temp.Length == height
      invariant forall r, c :: 0 <= r < height && 0 <= c < col ==> matrix[r, c] == ColumnFft(Column(m, width, c), n, omega)[r]
      invariant forall r, c :: 0 <= r < height && col <= c < width ==> matrix[r, c] == m[r][c]
    {
      assert Column(Grid(matrix), width, col) == Column(m, width, col);
      temp := TransformColumn(matrix, col, temp, n, omega);
      col := col + 1;
    }
    GridIs(matrix, ColumnPassSpec(m, width, n, omega));
  }

  /** sigprocess.c `FFT2D` as written: the column pass runs the kernel with
      length `width` on columns of `height` elements. It returns the matrix
      it was given, transformed in place. */
  method FFT2DAsWritten(matrix: array2<Complex>, width: int, height: int, omega: Complex)
    returns (result: array2<Complex>)
    requires matrix.Length0 == height && matrix.Length1 == width
    requires IsPow2(width) && (width == height || 1 == width <= height)
    modifies matrix
    ensures result == matrix
    ensures Grid(matrix) == Fft2DAsWrittenSpec(old(Grid(matrix)), width, omega)
  {
    RowPass(matrix, width, height, omega);
    ColumnPass(matrix, width, height, width, omega);
    result := matrix;
  }

  /** sigprocess.c `FFT2D` with the column pass run with length `height`,
      the length of a column. */
  method FFT2D(matrix: array2<Complex>, width: int, height: int, omega: Complex)
    returns (result: array2<Complex>)
    requires matrix.Length0 == height && matrix.Length1 == width
    requires IsPow2(width) && IsPow2(height)
    modifies matrix
    ensures result == matrix
    ensures Grid(matrix) == Fft2DSpec(old(Grid(matrix)), width, omega)
  {
    RowPass(matrix, width, height, omega);
    ColumnPass(matrix, width, height, height, omega);
    result := matrix;
  }

  // ---------------------------------------------------------------------
  // What the 2-D transform computes

  /** Every row replaced by its transform by definition. */
  function RowDft(m: seq<seq<Complex>>, w: nat, omega: Complex): (t: seq<seq<Complex>>)
    requires Rect(m, w)
    ensures |t| == |m| && Rect(t, w)
  {
    seq(|m|, r requires 0 <= r < |m| => Dft(m[r], omega))
  }

  /** The 2-D discrete Fourier transform by definition: the defining sum
      over the rows, then over the columns of the result. */
  function Dft2D(m: seq<seq<Complex>>, w: nat, omega: Complex): (t: seq<seq<Complex>>)
    requires Rect(m, w)
    ensures |t| == |m| && Rect(t, w)
  {
    var rows := RowDft(m, w, omega);
    seq(|m|, r requires 0 <= r < |m| =>
      seq(w, c requires 0 <= c < w => Dft(Column(rows, w, c), omega)[r]))
  }

  /** The row pass computes the defining sum of every row. */
  lemma RowFftIsDft(m: seq<seq<Complex>>, w: nat, omega: Complex)
    requires Rect(m, w) && IsPow2(w) && PrimitiveRoot(omega, w)
    ensures RowFft(m, w, omega) == RowDft(m, w, omega)
  {
    forall r | 0 <= r < |m|
      ensures RowFft(m, w, omega)[r] == RowDft(m, w, omega)[r]
    {
      FftIsDft(m[r], omega);
    }
  }

  /** A full-length column pass computes the defining sum of every column. */
  lemma {:induction false} FullColumnPassIsDft(m: seq<seq<Complex>>, w: nat, omega: Complex, r: nat, c: nat)
    requires Rect(m, w) && IsPow2(|m|) && PrimitiveRoot(omega, |m|) && r < |m| && c < w
    ensures ColumnPassSpec(m, w, |m|, omega)[r][c] == Dft(Column(m, w, c), omega)[r]
  {
    var col := Column(m, w, c);
    assert col[..|m|] == col;
    FftIsDft(col, omega);
  }

  /** Row r of the 2-D transform is row r of the 2-D defining sum. */
  lemma Fft2DRowIsDft(m: seq<seq<Complex>>, w: nat, omega: Complex, r: nat)
    requires Rect(m, w) && IsPow2(w) && IsPow2(|m|) && r < |m|
    requires PrimitiveRoot(omega, w) && PrimitiveRoot(omega, |m|)
    ensures Fft2DSpec(m, w, omega)[r] == Dft2D(m, w, omega)[r]
  {
    RowFftIsDft(m, w, omega);
    forall c | 0 <= c < w
      ensures Fft2DSpec(m, w, omega)[r][c] == Dft2D(m, w, omega)[r][c]
    {
      FullColumnPassIsDft(RowFft(m, w, omega), w, omega, r, c);
    }
  }

  /** FFT2D computes the 2-D discrete Fourier transform when omega is a
      primitive root of unity of both the width and the height (so either
      the matrix is square or it has a single column). */
  lemma Fft2DIsDft(m: seq<seq<Complex>>, w: nat, omega: Complex)
    requires Rect(m, w) && IsPow2(w) && IsPow2(|m|)
    requires PrimitiveRoot(omega, w) && PrimitiveRoot(omega, |m|)
    ensures Fft2DSpec(m, w, omega) == Dft2D(m, w, omega)
  {
    forall r | 0 <= r < |m|
      ensures Fft2DSpec(m, w, omega)[r] == Dft2D(m, w, omega)[r]
    {
      Fft2DRowIsDft(m, w, omega, r);
    }
  }

  /** On a square matrix the C's column length is the column length, and
      the two versions agree. */
  lemma AsWrittenSquare(m: seq<seq<Complex>>, w: nat, omega: Complex)
    requires Rect(m, w) && IsPow2(w) && w == |m|
    ensures Fft2DAsWrittenSpec(m, w, omega) == Fft2DSpec(m, w, omega)
  {
  }

  /** On a one-column matrix the C's column pass runs the kernel with length
      1, which changes nothing: the columns are left untransformed and the
      result is the row pass alone, which for rows of one element is the
      matrix itself. */
  lemma {:induction false} AsWrittenOneColumn(m: seq<seq<Complex>>, omega: Complex)
    requires Rect(m, 1) && 1 <= |m|
    ensures Fft2DAsWrittenSpec(m, 1, omega) == m
  {
    var rows := RowFft(m, 1, omega);
    assert rows == m;
    forall r | 0 <= r < |m|
      ensures Fft2DAsWrittenSpec(m, 1, omega)[r] == m[r]
    {
      var col := Column(rows, 1, 0);
      assert FftSpec(col[..1], omega) == col[..1];
      assert ColumnFft(col, 1, omega) == col;
    }
  }

  /** The two-point transform is the sum and the difference. */
  lemma {:induction false} TwoPoint(a: seq<Complex>, omega: Complex)
    requires |a| == 2
    ensures FftSpec(a, omega) == [Add(a[0], a[1]), Sub(a[0], a[1])]
  {
    assert IsPow2(|a|) by { assert IsPow2(1); }
    FftSplitAt(a, omega, 0);
    assert Evens(a) == [a[0]] && Odds(a) == [a[1]];
    MulOne(a[1]);
    MulComm(One, a[1]);
  }

  /** The transform of a one-column matrix of two rows: the column's sum
      over its difference. */
  lemma {:induction false} OneColumnTwoRows(m: seq<seq<Complex>>, omega: Complex)
    requires Rect(m, 1) && |m| == 2
    ensures IsPow2(|m|)
    ensures Fft2DSpec(m, 1, omega) == [[Add(m[0][0], m[1][0])], [Sub(m[0][0], m[1][0])]]
  {
    assert IsPow2(|m|) by { assert IsPow2(1); }
    var rows := RowFft(m, 1, omega);
    assert rows == m by {
      forall r | 0 <= r < 2 ensures rows[r] == m[r] { }
    }
    var col := Column(rows, 1, 0);
    assert col[..2] == col && col == [m[0][0], m[1][0]];
    TwoPoint(col, omega);
    var t := Fft2DSpec(m, 1, omega);
    assert t[0] == [ColumnFft(col, 2, omega)[0]];
    assert t[1] == [ColumnFft(col, 2, omega)[1]];
  }

  /** The single column [1, 0], with omega == -1 a primitive square root of
      unity: the C returns it unchanged, whereas its transform is [1, 1]. */
  lemma AsWrittenColumnCounterexample()
    ensures PrimitiveRoot(MinusOne, 2)
    ensures Fft2DAsWrittenSpec([[One], [Zero]], 1, MinusOne) == [[One], [Zero]]
    ensures Fft2DSpec([[One], [Zero]], 1, MinusOne) == [[One], [One]]
  {
    var m := [[One], [Zero]];
    AsWrittenOneColumn(m, MinusOne);
    OneColumnTwoRows(m, MinusOne);
    assert Add(One, Zero) == One && Sub(One, Zero) == One;
  }
}
