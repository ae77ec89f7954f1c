/** The generator stage: turns a selector, an edge length and the keyword
    parameters Q and S into the first grid of the pipeline. The draws of
    `random.Random(seed)` are supplied as functions from the seed and the
    number of the call to the value that call returns. */
module Generator {
  import opened Grids
  import opened Arith
  import opened Walk

  /** One result of `random()`: a float in [0, 1). */
  type UnitReal = r: real | 0.0 <= r < 1.0

  /** `random(seed, n)` is what the n-th call (from 0) of `random()`
      returns on a generator seeded with `seed`. */
  type RandomSource = (int, nat) -> UnitReal

  // ---------------------------------------------------------------------
  // Generator 1: the polynomial x*y + 2*y

  /** The value generator 1 puts at cell (x, y). */
  function PolynomialCell(x: int, y: int): int
  {
    x * y + 2 * y
  }

  /** The polynomial grows in both coordinates over the grid. */
  lemma PolynomialMonotone(x: int, y: int, x': int, y': int)
    requires 0 <= x <= x' && 0 <= y <= y'
    ensures 0 <= PolynomialCell(x, y) <= PolynomialCell(x', y')
  {
    MulMonotone(x, x', y);
    MulMonotone(y, y', x' + 2);
    assert PolynomialCell(x, y) == (x + 2) * y;
    assert PolynomialCell(x', y') == (x' + 2) * y';
  }

  /** The corner cell (n-1, n-1) holds n^2 - 1. */
  lemma PolynomialCorner(n: int)
    ensures PolynomialCell(n - 1, n - 1) == n * n - 1
  {
    var m := n - 1;
    assert PolynomialCell(m, m) == m * m + 2 * m;
    assert n * n == (m + 1) * (m + 1) == m * m + 2 * m + 1;
  }

  /** Over a size-by-size grid every cell lies in [0, size*size - 1], and
      the column y = 0 is all zero. */
  lemma PolynomialRange(size: nat, x: int, y: int)
    requires 0 <= x < size && 0 <= y < size
    ensures 0 <= PolynomialCell(x, y) <= size * size - 1
    ensures PolynomialCell(x, 0) == 0
  {
    PolynomialMonotone(x, y, size - 1, size - 1);
    PolynomialCorner(size);
  }

  /** The corner (size-1, size-1) reaches the top of that range, so the
      range is a single value exactly when size = 1. */
  lemma PolynomialTop(size: nat)
    requires 0 < size
    ensures PolynomialCell(size - 1, size - 1) == size * size - 1
    ensures PolynomialCell(0, 0) < PolynomialCell(size - 1, size - 1) <==> 1 < size
  {
    PolynomialCorner(size);
    if size == 1 {
      assert PolynomialCell(size - 1, size - 1) == PolynomialCell(0, 0);
    } else {
      PolynomialMonotone(1, 1, size - 1, size - 1);
      assert PolynomialCell(0, 0) < PolynomialCell(1, 1);
    }
  }

  // ---------------------------------------------------------------------
  // Generator 4: uniform noise, filled column by column

  /** The number of the `random()` call whose value generator 4 stores in
      cell (row, col): the outer loop runs over columns, the inner over rows. */
  function DrawNumber(size: nat, row: nat, col: nat): nat
  {
    col * size + row
  }

  /** Every cell of a size-by-size grid takes one of the first size*size draws. */
  lemma DrawNumberInRange(size: nat, row: nat, col: nat)
    requires row < size && col < size
    ensures DrawNumber(size, row, col) < size * size
  {
    MulMonotone(col, size - 1, size);
    assert (size - 1) * size + size == size * size;
  }

  /** No two cells share a draw. */
  lemma DrawNumberInjective(size: nat, row: nat, col: nat, row': nat, col': nat)
    requires row < size && col < size && row' < size && col' < size
    requires DrawNumber(size, row, col) == DrawNumber(size, row', col')
    ensures row == row' && col == col'
  {
    FloorUnique(DrawNumber(size, row, col), size, col);
    FloorUnique(DrawNumber(size, row', col'), size, col');
  }

  /** Every one of the first size*size draws lands in some cell: draw k
      lands in row k % size of column k / size. */
  lemma DrawNumberOnto(size: nat, k: nat)
    requires 0 < size && k < size * size
    ensures k % size < size && k / size < size
    ensures DrawNumber(size, k % size, k / size) == k
  {
    if size <= k / size {
      MulMonotone(size, k / size, size);
    }
  }

  /** Generator 4: `size` by `size` zeros, then for each column i and each
      row j the next `random()` value goes to cell (j, i). Returns the grid
      and the number of draws taken. */
  method NoiseField(size: nat, seed: int, random: RandomSource) returns (image: array2<real>, draws: nat)
    ensures fresh(image) && HasSize(image, size)
    ensures draws == size * size
    ensures forall row, col :: 0 <= row < size && 0 <= col < size ==>
              image[row, col] == random(seed, DrawNumber(size, row, col))
  {
    image := new real[size, size]((_, _) => 0.0);
    draws := 0;
    var i := 0;
    while i < size
      invariant 0 <= i <= size
      invariant draws == i * size
      invariant forall row, col :: 0 <= row < size && 0 <= col < i ==>
                  image[row, col] == random(seed, DrawNumber(size, row, col))
    {
      var j := 0;
      while j < size
        invariant 0 <= j <= size
        invariant draws == i * size + j
        invariant forall row, col :: 0 <= row < size && 0 <= col < i ==>
                    image[row, col] == random(seed, DrawNumber(size, row, col))
        invariant forall row :: 0 <= row < j ==> image[row, i] == random(seed, DrawNumber(size, row, i))
      {
        image[j, i] := random(seed, draws);
        draws := draws + 1;
        j := j + 1;
      }
      assert (i + 1) * size == i * size + size;
      i := i + 1;
    }
  }

  // ---------------------------------------------------------------------
  // generate_image: parameter defaulting and dispatch

  /** `kwargs[name]`, or 0 when the lookup raises KeyError. */
  function Param(kwargs: map<string, int>, name: string): int
  {
    if name in kwargs then kwargs[name] else 0
  }

  /** The defaulting of Q and S: a supplied value is taken as given, an
      absent key acts exactly like a supplied 0, and keys other than the
      one looked up are ignored. */
  lemma ParamDefaulting(kwargs: map<string, int>, name: string, other: string, v: int)
    ensures Param(kwargs[name := v], name) == v
    ensures Param(kwargs - {name}, name) == Param(kwargs[name := 0], name)
    ensures other != name ==> Param(kwargs[other := v], name) == Param(kwargs, name)
    ensures other != name ==> Param(kwargs - {other}, name) == Param(kwargs, name)
  {
  }

  /** `generate_image(size, F, **kwargs)`. Generators 2 and 3 compute float
      fields (cos, sin, a fractional power) of x/Q and y/Q; their cell values
      are supplied as `trigField(Q, x, y)` and `powerField(Q, x, y)`, and the
      model keeps only their ZeroDivisionError on Q = 0. */
  method GenerateImage(size: nat, f: int, kwargs: map<string, int>,
                       random: RandomSource, randint: RandIntSource,
                       trigField: (int, int, int) -> real, powerField: (int, int, int) -> real)
    returns (r: Result<array2<real>>)
    ensures r.Success? ==> fresh(r.value) && HasSize(r.value, size)
    ensures !(1 <= f <= 5) ==> r == Failure(InvalidGenerator(f))
    ensures f == 1 ==> r.Success? && forall x, y :: 0 <= x < size && 0 <= y < size ==>
              r.value[x, y] == PolynomialCell(x, y) as real
    ensures (f == 2 || f == 3) && 0 < size && Param(kwargs, "Q") == 0 ==> r == Failure(ZeroDivision)
    ensures f == 2 && (size == 0 || Param(kwargs, "Q") != 0) ==>
              r.Success? && forall x, y :: 0 <= x < size && 0 <= y < size ==>
                r.value[x, y] == trigField(Param(kwargs, "Q"), x, y)
    ensures f == 3 && (size == 0 || Param(kwargs, "Q") != 0) ==>
              r.Success? && forall x, y :: 0 <= x < size && 0 <= y < size ==>
                r.value[x, y] == powerField(Param(kwargs, "Q"), x, y)
    ensures f == 4 ==> r.Success? && forall x, y :: 0 <= x < size && 0 <= y < size ==>
              r.value[x, y] == random(Param(kwargs, "S"), DrawNumber(size, x, y)) as real
    ensures f == 5 && size == 0 ==> r == Failure(IndexOutOfRange)
    ensures f == 5 && 0 < size ==>
              r.Success? && IsMask(r.value, size, Visited(size, WalkMoves(Param(kwargs, "S"), randint, StepCount(size)), StepCount(size)))
  {
    var q := Param(kwargs, "Q");
    var s := Param(kwargs, "S");
    if f == 1 {
      var image := new real[size, size]((x, y) => PolynomialCell(x, y) as real);
      r := Success(image);
    } else if f == 2 || f == 3 {
      if 0 < size && q == 0 {
        r := Failure(ZeroDivision);
      } else if f == 2 {
        var image := new real[size, size]((x, y) => trigField(q, x, y));
        r := Success(image);
      } else {
        var image := new real[size, size]((x, y) => powerField(q, x, y));
        r := Success(image);
      }
    } else if f == 4 {
      var image, draws := NoiseField(size, s, random);
      r := Success(image);
    } else if f == 5 {
      r := RandomWalk(size, s, randint);
    } else {
      r := Failure(InvalidGenerator(f));
    }
  }
}
