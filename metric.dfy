/** The error measure of the pipeline: the sum of squared cell differences
    between the produced grid and a reference grid over the first `size`
    rows and columns, `size` being the produced grid's number of rows. The
    final square root is not part of this model. */
module Metric {
  import opened Grids

  /** The product of two reals, kept behind a function name. The solver
      turns a bare fact `0.0 < d * d` into `d != 0.0` and then cannot use
      it to bound a sum; the positivity of a product is therefore stated
      once, about `Mul`, in `ProductPositive`. */
  function Mul(x: real, y: real): real
  {
    x * y
  }

  /** A product of two positive reals is positive. */
  lemma ProductPositive(x: real, y: real)
    requires 0.0 < x && 0.0 < y
    ensures 0.0 < Mul(x, y)
  {
  }

  /** The magnitude of a real. */
  function Abs(d: real): (m: real)
    ensures 0.0 <= m && (m == 0.0 <==> d == 0.0)
  {
    if d < 0.0 then -d else d
  }

  /** `pow(d, 2)`, written as |d| * |d|: positive unless d is zero, and
      the same for d and -d. */
  function Square(d: real): (s: real)
    ensures d == 0.0 ==> s == 0.0
    ensures d != 0.0 ==> 0.0 < s
    ensures s == Mul(Abs(d), Abs(d))
  {
    if d == 0.0 then
      0.0
    else
      ProductPositive(Abs(d), Abs(d));
      Mul(Abs(d), Abs(d))
  }

  /** Square is the product of d with itself. */
  lemma SquareIsProduct(d: real)
    ensures Square(d) == d * d
  {
    if d < 0.0 {
      assert Mul(-d, -d) == (-d) * (-d) == d * d;
    }
  }

  /** The squared difference at cell (i, j). */
  function CellError(a: array2<real>, b: array2<real>, i: nat, j: nat): (e: real)
    requires i < a.Length0 && i < b.Length0 && j < a.Length1 && j < b.Length1
    reads a, b
    ensures 0.0 <= e
    ensures e == 0.0 <==> a[i, j] == b[i, j]
  {
    Square(a[i, j] - b[i, j])
  }

  /** The squared differences of row i over columns 0 .. n-1. */
  function RowError(a: array2<real>, b: array2<real>, i: nat, n: nat): (e: real)
    requires i < a.Length0 && i < b.Length0 && n <= a.Length1 && n <= b.Length1
    reads a, b
    ensures 0.0 <= e
  {
    if n == 0 then 0.0 else RowError(a, b, i, n - 1) + CellError(a, b, i, n - 1)
  }

  /** The squared differences over rows 0 .. m-1 and columns 0 .. n-1. */
  function GridError(a: array2<real>, b: array2<real>, m: nat, n: nat): (e: real)
    requires m <= a.Length0 && m <= b.Length0 && n <= a.Length1 && n <= b.Length1
    reads a, b
    ensures 0.0 <= e
  {
    if m == 0 then 0.0 else GridError(a, b, m - 1, n) + RowError(a, b, m - 1, n)
  }

  /** Comparing b against a gives the same row error as a against b. */
  lemma {:induction false} RowErrorSymmetric(a: array2<real>, b: array2<real>, i: nat, n: nat)
    requires i < a.Length0 && i < b.Length0 && n <= a.Length1 && n <= b.Length1
    ensures RowError(a, b, i, n) == RowError(b, a, i, n)
  {
    if n != 0 {
      RowErrorSymmetric(a, b, i, n - 1);
      assert Abs(b[i, n - 1] - a[i, n - 1]) == Abs(a[i, n - 1] - b[i, n - 1]);
    }
  }

  /** The error does not depend on which grid is the reference. */
  lemma {:induction false} GridErrorSymmetric(a: array2<real>, b: array2<real>, m: nat, n: nat)
    requires m <= a.Length0 && m <= b.Length0 && n <= a.Length1 && n <= b.Length1
    ensures GridError(a, b, m, n) == GridError(b, a, m, n)
  {
    if m != 0 {
      GridErrorSymmetric(a, b, m - 1, n);
      RowErrorSymmetric(a, b, m - 1, n);
    }
  }

  /** A row contributes nothing exactly when it matches on every column. */
  lemma {:induction false} RowErrorZeroIff(a: array2<real>, b: array2<real>, i: nat, n: nat)
    requires i < a.Length0 && i < b.Length0 && n <= a.Length1 && n <= b.Length1
    ensures RowError(a, b, i, n) == 0.0 <==> forall j :: 0 <= j < n ==> a[i, j] == b[i, j]
  {
    if n != 0 {
      RowErrorZeroIff(a, b, i, n - 1);
      if RowError(a, b, i, n) == 0.0 {
        assert CellError(a, b, i, n - 1) == 0.0;
      }
    }
  }

  /** The error is zero exactly when the two grids agree on every compared
      cell. */
  lemma {:induction false} GridErrorZeroIff(a: array2<real>, b: array2<real>, m: nat, n: nat)
    requires m <= a.Length0 && m <= b.Length0 && n <= a.Length1 && n <= b.Length1
    ensures GridError(a, b, m, n) == 0.0 <==>
            forall i, j :: 0 <= i < m && 0 <= j < n ==> a[i, j] == b[i, j]
  {
    if m != 0 {
      GridErrorZeroIff(a, b, m - 1, n);
      RowErrorZeroIff(a, b, m - 1, n);
      if GridError(a, b, m, n) == 0.0 {
        assert RowError(a, b, m - 1, n) == 0.0;
      }
    }
  }

  /** Every index the error loop reads exists: `reference` has at least as
      many rows and columns as `image` has rows, and so does `image` along
      its columns. */
  predicate Comparable(image: array2<real>, reference: array2<real>)
  {
    image.Length0 == 0 ||
    (image.Length0 <= image.Length1 && image.Length0 <= reference.Length0 && image.Length0 <= reference.Length1)
  }

  /** `RSE(image, reference)` without the square root: the sum of squared
      differences over the first len(image) rows and columns, or IndexError
      when a read falls outside either grid. */
  method SumSquaredError(image: array2<real>, reference: array2<real>) returns (r: Result<real>)
    ensures !Comparable(image, reference) <==> r == Failure(IndexOutOfRange)
    ensures Comparable(image, reference) ==>
              r == Success(GridError(image, reference, image.Length0, image.Length0))
  {
    var size := image.Length0;
    var error := 0.0;
    var i := 0;
    while i < size
      invariant 0 <= i <= size
      invariant 0 < i ==> size <= image.Length1 && size <= reference.Length1
      invariant i <= reference.Length0
      invariant 0 < i ==> error == GridError(image, reference, i, size)
      invariant i == 0 ==> error == 0.0
    {
      var j := 0;
      if reference.Length0 <= i {
        return Failure(IndexOutOfRange);
      }
      while j < size
        invariant 0 <= j <= size
        invariant j <= image.Length1 && j <= reference.Length1
        invariant 0 < i ==> size <= image.Length1 && size <= reference.Length1
        invariant error == (if 0 < i then GridError(image, reference, i, size) else 0.0) + RowError(image, reference, i, j)
      {
        if image.Length1 <= j || reference.Length1 <= j {
          return Failure(IndexOutOfRange);
        }
        error := error + Square(image[i, j] - reference[i, j]);
        j := j + 1;
      }
      i := i + 1;
    }
    return Success(error);
  }
}
