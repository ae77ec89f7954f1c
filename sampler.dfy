/** The sampling stage: nearest-neighbour resampling of a grid to
    `outputSize` by `outputSize`. Output index i reads input index
    int(i * (inputSize / outputSize)), where inputSize is the number of rows
    of the input; the same index rule is used along both axes. */
module Sampler {
  import opened Grids
  import opened Arith

  /** The input index that output index `i` reads. */
  function SourceIndex(i: nat, inputSize: nat, outputSize: nat): nat
    requires 0 < outputSize
  {
    (i * inputSize) / outputSize
  }

  /** The index is the floor of i * inputSize / outputSize: the unique r
      with r * outputSize <= i * inputSize < (r + 1) * outputSize. */
  lemma SourceIndexFloor(i: nat, inputSize: nat, outputSize: nat, r: int)
    requires 0 < outputSize
    ensures r == SourceIndex(i, inputSize, outputSize) <==>
            r * outputSize <= i * inputSize < (r + 1) * outputSize
  {
    var d := SourceIndex(i, inputSize, outputSize);
    assert (d + 1) * outputSize == d * outputSize + outputSize;
    if r * outputSize <= i * inputSize < (r + 1) * outputSize {
      FloorUnique(i * inputSize, outputSize, r);
    }
  }

  /** Every output index below outputSize reads an index below inputSize. */
  lemma SourceIndexInBounds(i: nat, inputSize: nat, outputSize: nat)
    requires i < outputSize && 0 < inputSize
    ensures SourceIndex(i, inputSize, outputSize) < inputSize
  {
    var d := SourceIndex(i, inputSize, outputSize);
    SourceIndexFloor(i, inputSize, outputSize, d);
    MulMonotone(i, outputSize, inputSize);
    if inputSize <= d {
      MulMonotone(inputSize, d, outputSize);
    }
  }

  /** Sampling to the input's own size reads every index as itself. */
  lemma SourceIndexIdentity(i: nat, size: nat)
    requires 0 < size
    ensures SourceIndex(i, size, size) == i
  {
    MultipleDivides(i, size);
  }

  /** A larger output index never reads a smaller input index. */
  lemma SourceIndexMonotone(i: nat, j: nat, inputSize: nat, outputSize: nat)
    requires i <= j && 0 < outputSize
    ensures SourceIndex(i, inputSize, outputSize) <= SourceIndex(j, inputSize, outputSize)
  {
    var d := SourceIndex(i, inputSize, outputSize);
    SourceIndexFloor(i, inputSize, outputSize, d);
    MulMonotone(i, j, inputSize);
    FloorIsGreatest(j * inputSize, outputSize, d);
  }

  /** Shrinking by a whole factor c keeps every c-th row and column. */
  lemma SourceIndexScaled(i: nat, c: nat, outputSize: nat)
    requires 0 < outputSize
    ensures SourceIndex(i, c * outputSize, outputSize) == c * i
  {
    assert i * (c * outputSize) == (c * i) * outputSize;
    MultipleDivides(c * i, outputSize);
  }

  /** Every index the sampler reads from a grid with `rows` rows and `cols`
      columns is inside it. */
  predicate SamplesInBounds(rows: nat, cols: nat, outputSize: nat)
    requires 0 < outputSize
  {
    forall i :: 0 <= i < outputSize ==>
      SourceIndex(i, rows, outputSize) < rows && SourceIndex(i, rows, outputSize) < cols
  }

  /** The reads stay inside the grid exactly when it has a row and its last
      read column exists; in particular on every non-empty square grid. */
  lemma SamplesInBoundsIff(rows: nat, cols: nat, outputSize: nat)
    requires 0 < outputSize
    ensures SamplesInBounds(rows, cols, outputSize) <==>
            0 < rows && SourceIndex(outputSize - 1, rows, outputSize) < cols
    ensures 0 < rows && rows <= cols ==> SamplesInBounds(rows, cols, outputSize)
  {
    if 0 < rows {
      forall i | 0 <= i < outputSize
        ensures SourceIndex(i, rows, outputSize) < rows
        ensures SourceIndex(i, rows, outputSize) <= SourceIndex(outputSize - 1, rows, outputSize)
      {
        SourceIndexInBounds(i, rows, outputSize);
        SourceIndexMonotone(i, outputSize - 1, rows, outputSize);
      }
      SourceIndexInBounds(outputSize - 1, rows, outputSize);
    } else {
      assert SourceIndex(0, rows, outputSize) == 0;
    }
  }

  /** The reads for output row `i` are inside a grid with `rows` rows and
      `cols` columns. */
  predicate RowInBounds(rows: nat, cols: nat, i: nat, outputSize: nat)
    requires 0 < outputSize
  {
    SourceIndex(i, rows, outputSize) < rows &&
    forall j :: 0 <= j < outputSize ==> SourceIndex(j, rows, outputSize) < cols
  }

  /** Output cell (i, j) holds the input cell the sampler reads for it. */
  ghost predicate SampledCell(image: array2<real>, sampled: array2<real>, i: nat, j: nat, outputSize: nat)
    requires 0 < outputSize && i < sampled.Length0 && j < sampled.Length1
    reads image, sampled
  {
    var row := SourceIndex(i, image.Length0, outputSize);
    var col := SourceIndex(j, image.Length0, outputSize);
    row < image.Length0 && col < image.Length1 && sampled[i, j] == image[row, col]
  }

  /** The inner loop of `sample_image` for output row `i`; false when a read
      falls outside the input, which raises IndexError there. */
  method SampleRow(image: array2<real>, sampled: array2<real>, i: nat, outputSize: nat) returns (ok: bool)
    requires i < outputSize && HasSize(sampled, outputSize) && sampled != image
    modifies sampled
    ensures ok <==> RowInBounds(image.Length0, image.Length1, i, outputSize)
    ensures ok ==> forall j :: 0 <= j < outputSize ==> SampledCell(image, sampled, i, j, outputSize)
    ensures forall a, b :: 0 <= a < outputSize && 0 <= b < outputSize && a != i ==>
              sampled[a, b] == old(sampled[a, b])
  {
    var row := SourceIndex(i, image.Length0, outputSize);
    var j := 0;
    while j < outputSize
      invariant 0 <= j <= outputSize
      invariant 0 < j ==> row < image.Length0
      invariant forall b :: 0 <= b < j ==> SourceIndex(b, image.Length0, outputSize) < image.Length1
      invariant forall b :: 0 <= b < j ==> SampledCell(image, sampled, i, b, outputSize)
      invariant forall a, b :: 0 <= a < outputSize && 0 <= b < outputSize && a != i ==>
                  sampled[a, b] == old(sampled[a, b])
    {
      var col := SourceIndex(j, image.Length0, outputSize);
      if image.Length0 <= row || image.Length1 <= col {
        return false;
      }
      sampled[i, j] := image[row, col];
      j := j + 1;
    }
    return true;
  }

  /** The two loops of `sample_image` for a positive `outputSize`; `ok` is
      false when a read falls outside the input, which raises IndexError
      there. */
  method SampleGrid(image: array2<real>, outputSize: nat) returns (sampled: array2<real>, ok: bool)
    requires 0 < outputSize
    ensures fresh(sampled) && HasSize(sampled, outputSize)
    ensures ok <==> SamplesInBounds(image.Length0, image.Length1, outputSize)
    ensures ok ==> forall a, b :: 0 <= a < outputSize && 0 <= b < outputSize ==>
              SampledCell(image, sampled, a, b, outputSize)
  {
    sampled := new real[outputSize, outputSize]((_, _) => 0.0);
    var i := 0;
    while i < outputSize
      invariant 0 <= i <= outputSize
      invariant forall a :: 0 <= a < i ==> RowInBounds(image.Length0, image.Length1, a, outputSize)
      invariant forall a, b :: 0 <= a < i && 0 <= b < outputSize ==> SampledCell(image, sampled, a, b, outputSize)
    {
      label before:
      ok := SampleRow(image, sampled, i, outputSize);
      if !ok {
        assert !SamplesInBounds(image.Length0, image.Length1, outputSize);
        return;
      }
      forall a, b | 0 <= a < i && 0 <= b < outputSize
        ensures SampledCell(image, sampled, a, b, outputSize)
      {
        assert old@before(SampledCell(image, sampled, a, b, outputSize));
        assert sampled[a, b] == old@before(sampled[a, b]);
      }
      i := i + 1;
    }
    forall a | 0 <= a < outputSize
      ensures SourceIndex(a, image.Length0, outputSize) < image.Length0
      ensures SourceIndex(a, image.Length0, outputSize) < image.Length1
    {
      assert RowInBounds(image.Length0, image.Length1, a, outputSize);
      assert RowInBounds(image.Length0, image.Length1, 0, outputSize);
    }
    ok := true;
  }

  /** `sample_image(image, output_size)`: a fresh `outputSize` by
      `outputSize` grid whose cell (i, j) is the input cell at
      (SourceIndex(i), SourceIndex(j)); ZeroDivisionError when outputSize
      is 0, IndexError when a read falls outside the input. Resampling a
      square grid to its own size copies it. */
  method SampleImage(image: array2<real>, outputSize: nat) returns (r: Result<array2<real>>)
    ensures outputSize == 0 ==> r == Failure(ZeroDivision)
    ensures 0 < outputSize && !SamplesInBounds(image.Length0, image.Length1, outputSize) ==>
              r == Failure(IndexOutOfRange)
    ensures 0 < outputSize && SamplesInBounds(image.Length0, image.Length1, outputSize) ==>
              r.Success? && fresh(r.value) && HasSize(r.value, outputSize)
    ensures 0 < outputSize && SamplesInBounds(image.Length0, image.Length1, outputSize) ==>
              r.Success? && forall i, j :: 0 <= i < outputSize && 0 <= j < outputSize ==>
                r.value[i, j] == image[SourceIndex(i, image.Length0, outputSize), SourceIndex(j, image.Length0, outputSize)]
    ensures image.Length0 == image.Length1 == outputSize > 0 ==>
              r.Success? && forall i, j :: 0 <= i < outputSize && 0 <= j < outputSize ==> r.value[i, j] == image[i, j]
  {
    if outputSize == 0 {
      return Failure(ZeroDivision);
    }
    SamplesInBoundsIff(image.Length0, image.Length1, outputSize);
    var sampled, ok := SampleGrid(image, outputSize);
    if !ok {
      return Failure(IndexOutOfRange);
    }
    r := Success(sampled);
    forall a, b | 0 <= a < outputSize && 0 <= b < outputSize
      ensures SourceIndex(a, image.Length0, outputSize) < image.Length0
      ensures SourceIndex(b, image.Length0, outputSize) < image.Length1
      ensures sampled[a, b] == image[SourceIndex(a, image.Length0, outputSize), SourceIndex(b, image.Length0, outputSize)]
    {
      assert SampledCell(image, sampled, a, b, outputSize);
    }
    if image.Length0 == image.Length1 == outputSize {
      forall a | 0 <= a < outputSize
        ensures SourceIndex(a, image.Length0, outputSize) == a
      {
        SourceIndexIdentity(a, outputSize);
      }
    }
  }
}
