# Image pipeline model

A Dafny model of the image pipeline in `T01/main.py`. The pipeline
generates a square grid, resamples it, quantises it, and measures its
distance from a reference grid. The model covers five parts:

- **The walk.** `random_walk` starts on cell (0, 0) of a zero grid. It takes
  1 + size² steps on a torus and marks every cell it stands on.
- **The generators.** `generate_image` fills in the Q and S keyword
  parameters with a default of 0, then dispatches on its selector.
  - Generator 1 is the polynomial x·y + 2·y.
  - Generator 4 is uniform noise, filled column by column.
  - Generator 5 is the walk.
  - Any other selector raises the selector error.
- **The sampler.** `sample_image` resamples to `output_size` by
  `output_size`. Output index i reads input index ⌊i·in/out⌋, where `in` is
  the input's number of rows. Both axes use this rule.
- **The mask.** The loop of `quantize_image` keeps the top n bits of every
  byte with `(v >> (8-n)) << (8-n)`.
- **The error sum.** `RSE` sums the squared differences over the first
  len(image) rows and columns.

The draws of Python's `random.Random(seed)` are not computed. They enter the
model as supplied functions `(seed, n) ↦ value of the n-th call`. The walk
takes dx from call 2n and dy from call 2n + 1. Generator 4 stores call
`col·size + row` in cell (row, col).

The model has these modules:

- `Grids`: shared types. These are the error kinds, `Result`, and the shape
  predicates for `array2`.
- `Arith`: facts about integer floor division that the other modules use.
- `Walk`
- `Generator`
- `Sampler`
- `Quantizer`
- `Metric`

Grids are `array2<real>`, and the integer grid the quantiser works on is
`array2<Byte>`. The error conditions Python raises are modelled as
`Failure(...)` results:

- `IndexError` becomes `IndexOutOfRange`.
- `ZeroDivisionError` becomes `ZeroDivision`.
- The selector's `ValueError` becomes `InvalidGenerator`.

## Model

| member | source | states |
|---|---|---|
| Walk.Wrap | T01/main.py:27 | Python's `% size` for a positive size always lands in [0, size) |
| Walk.WrapOnTorus | T01/main.py:27 | on step coordinates, `% size` is the torus wrap: in-range values stay, -1 becomes size-1, size becomes 0 |
| Walk.Step | T01/main.py:27 | one step `(x+dx)%size, (y+dy)%size` always stays on the grid |
| Walk.StepCount | T01/main.py:18 | definition: the walk takes 1 + size² steps; `RandomWalk` and `GenerateImage` state their results in terms of it |
| Walk.CallNumber | T01/main.py:24-26 | definition: step n draws dx with call 2n and dy with call 2n+1; the `CallNumber*` lemmas are about it |
| Walk.WalkMoves | T01/main.py:22-26 | definition: the moves built from those calls; `WalkMovesDrawOrder` is about it |
| Walk.CallNumberInRange | T01/main.py:24-26 | a walk of `count` steps uses only the first 2·count calls |
| Walk.CallNumberInjective | T01/main.py:24-26 | no call is used by two (step, axis) pairs |
| Walk.CallNumberOnto | T01/main.py:24-26 | every one of the first 2·count calls is used: call c by step c/2, as dx when c is even and as dy when c is odd |
| Walk.WalkMovesDrawOrder | T01/main.py:22-27 | the value of call c is the dx (c even) or dy (c odd) of move c/2 of the walk |
| Walk.PositionAfter | T01/main.py:19-27 | every position of the path, starting from (0, 0), is a grid cell |
| Walk.StepFrom | T01/main.py:25-27 | the loop's update of (x, y) by move k turns position k into position k+1 |
| Walk.StepIsNeighbour | T01/main.py:25-27 | consecutive positions differ by at most one cell on each axis, with wrap-around |
| Walk.Visited | T01/main.py:21-28 | definition: the set of cells marked after k steps, (0, 0) and each position reached; `VisitedIff`, `StartVisited` and `VisitedInGrid` are about it |
| Walk.VisitedIff | T01/main.py:21-28 | the marked set after k steps holds exactly the positions 0..k of the path |
| Walk.StartVisited | T01/main.py:21 | the start cell (0, 0) is always marked |
| Walk.VisitedInGrid | T01/main.py:27-28 | only grid cells are ever marked |
| Walk.StartGrid | T01/main.py:17-21 | the starting grid is a fresh size-by-size zero grid with only (0, 0) set |
| Walk.StepAndMark | T01/main.py:25-28 | one iteration advances (x, y) to the next path position and extends the mask by that cell |
| Walk.MarkPath | T01/main.py:17-28 | the loop leaves a fresh size-by-size grid that is 1 exactly on the visited cells and 0 elsewhere |
| Walk.RandomWalk | T01/main.py:16-30 | size 0 raises IndexError; a positive size gives the mask of the 1+size² drawn steps |
| Walk.WalkMask | T01/main.py:17-28 | the walk's grid is 0/1 with (0, 0) set, and a cell is 1 iff some path position equals it |
| Generator.PolynomialCell | T01/main.py:48 | definition: the generator-1 value x·y + 2·y; the `Polynomial*` lemmas are about it |
| Generator.PolynomialMonotone | T01/main.py:48 | the generator-1 value is non-negative and grows in x and in y over the grid |
| Generator.PolynomialCorner | T01/main.py:48-50 | the corner cell (n-1, n-1) holds n²-1 |
| Generator.PolynomialRange | T01/main.py:48-50 | every generator-1 cell lies in [0, size²-1], and column y = 0 is zero |
| Generator.PolynomialTop | T01/main.py:48-50 | the corner reaches size²-1, and it exceeds the (0, 0) value iff size > 1 |
| Generator.DrawNumber | T01/main.py:65-67 | definition: the number of the `random()` call stored in cell (row, col), col·size + row; the `DrawNumber*` lemmas are about it |
| Generator.DrawNumberInRange | T01/main.py:65-67 | every cell of generator 4 takes one of the first size² draws |
| Generator.DrawNumberInjective | T01/main.py:65-67 | no two cells of generator 4 take the same draw |
| Generator.DrawNumberOnto | T01/main.py:65-67 | draw k lands in row k % size of column k / size |
| Generator.NoiseField | T01/main.py:63-67 | generator 4 makes a fresh size-by-size grid, takes exactly size² draws, and stores draw col·size+row in cell (row, col) |
| Generator.Param | T01/main.py:33-45 | definition: the lookup of a keyword parameter with its KeyError default; `ParamDefaulting` is about it |
| Generator.ParamDefaulting | T01/main.py:33-45 | a supplied value is taken as given, an absent key behaves exactly like a supplied 0, and other keys do not affect the lookup |
| Generator.GenerateImage | T01/main.py:32-75 | a selector outside 1..5 raises the selector error; generator 1 is the polynomial grid; generators 2/3 raise ZeroDivisionError for Q = 0 on a non-empty grid; generator 4 is the noise grid from seed S; generator 5 is the walk from seed S, or IndexError on size 0 |
| Sampler.SourceIndex | T01/main.py:95 | definition: the input index ⌊i·in/out⌋ that output index i reads; the `SourceIndex*` lemmas are about it |
| Sampler.SourceIndexFloor | T01/main.py:95 | the read index is the unique r with r·out ≤ i·in < (r+1)·out |
| Sampler.SourceIndexInBounds | T01/main.py:89-95 | every output index below out reads an input index below in |
| Sampler.SourceIndexIdentity | T01/main.py:90-95 | resampling to the same size reads every index as itself |
| Sampler.SourceIndexMonotone | T01/main.py:95 | a larger output index never reads a smaller input index |
| Sampler.SourceIndexScaled | T01/main.py:90-95 | shrinking by a whole factor c reads every c-th index |
| Sampler.SamplesInBoundsIff | T01/main.py:89-95 | all reads are in bounds iff the input has a row and its last read column exists; this always holds for a non-empty square input |
| Sampler.SampleRow | T01/main.py:94-95 | the inner loop fills row i from the input exactly when all of its reads are in bounds, and leaves other rows alone |
| Sampler.SampleGrid | T01/main.py:91-95 | the two loops succeed iff every read is in bounds, and then fill every cell from its source cell |
| Sampler.SampleImage | T01/main.py:88-97 | out = 0 raises ZeroDivisionError; an out-of-range read raises IndexError; otherwise cell (i, j) is the input at (⌊i·in/out⌋, ⌊j·in/out⌋), and a square grid resampled to its own size is copied |
| Quantizer.ShiftRight | T01/main.py:107 | definition: `v >> k` as k removals of the lowest bit; `ShiftRightDivides` is about it |
| Quantizer.ShiftLeft | T01/main.py:107 | definition: `v << k` as k appended zero bits; `ShiftLeftMultiplies` is about it |
| Quantizer.ShiftRightDivides | T01/main.py:107 | `v >> k` is ⌊v / 2^k⌋ |
| Quantizer.ShiftLeftMultiplies | T01/main.py:107 | `v << k` is v · 2^k |
| Quantizer.MaskLowBits | T01/main.py:107 | `(v >> (8-n)) << (8-n)` of a byte is again a byte |
| Quantizer.MaskIsFloorToMultiple | T01/main.py:107 | the masked value is a multiple of 2^(8-n), is not above v, lies less than 2^(8-n) below v, and is the largest such multiple |
| Quantizer.MaskLevels | T01/main.py:107 | the kept bits, read as a number, are below 2^n, so at most 2^n levels remain |
| Quantizer.MaskExtremes | T01/main.py:107 | keeping 8 bits is the identity, and keeping 0 bits clears the byte |
| Quantizer.MaskIdempotent | T01/main.py:107 | masking twice is masking once |
| Quantizer.MaskMonotoneInBits | T01/main.py:107 | keeping fewer bits never gives a larger value |
| Quantizer.QuantizeImage | T01/main.py:99-109 | the loop raises IndexError iff the grid has fewer columns than rows; otherwise it masks, in place, every cell in the first len(image) columns and leaves the rest unchanged |
| Metric.Abs | T01/main.py:117 | a magnitude is non-negative, and zero iff its argument is |
| Metric.Square | T01/main.py:117 | `pow(d, 2)` is zero for d = 0 and positive otherwise |
| Metric.SquareIsProduct | T01/main.py:117 | the square of d is d·d |
| Metric.CellError | T01/main.py:117 | a cell's term is non-negative, and zero iff the two cells are equal |
| Metric.RowError | T01/main.py:116-117 | a row's sum of terms is non-negative |
| Metric.GridError | T01/main.py:115-117 | the whole sum is non-negative |
| Metric.RowErrorSymmetric | T01/main.py:116-117 | swapping the grids does not change a row's sum |
| Metric.GridErrorSymmetric | T01/main.py:115-117 | swapping image and reference does not change the sum |
| Metric.RowErrorZeroIff | T01/main.py:116-117 | a row's sum is zero iff the row agrees on every compared column |
| Metric.GridErrorZeroIff | T01/main.py:115-117 | the sum is zero iff the grids agree on every compared cell |
| Metric.SumSquaredError | T01/main.py:111-118 | IndexError iff a read falls outside either grid; otherwise the result is the sum of squared differences over the first len(image) rows and columns |

## Left out

- Generators 2 and 3 compute `abs(cos(x/Q) + 2*sin(y/Q))` and
  `abs(3*x/Q - (y/Q)**(1/3))` in floating point. Their cell values enter the
  model as supplied functions of (Q, x, y). Only their ZeroDivisionError for
  Q = 0 is modelled.
- The Mersenne Twister behind `random.Random(seed)` is not modelled. Its
  draws are supplied functions of the seed and the number of the call.
- `normalize_image`, and the `astype(np.uint8)` cast in `quantize_image`
  (lines 101-102), are floating-point rescaling. `QuantizeImage` starts from
  the byte grid they produce.
- The final `sqrt` of `RSE` is left out; `SumSquaredError` returns the sum
  it is taken of.
- Floating point is idealised: float64 values and arithmetic are exact
  reals.
- Sampler.SourceIndex: the source computes `int(i * (input_size /
  output_size))` in floating point. The model uses the exact integer
  ⌊i·in/out⌋. The two can differ when the float quotient rounds down. For
  example, in = 2, out = 98, i = 49 gives 49 · (2/98) = 0.9999999999999999
  in float64, so index 0 where the exact value is 1.
- `__main__` reads a file name and parameters from standard input and loads
  a `.npy` file. That is I/O, and is not part of this model.
- Quantizer.QuantizeImage: it requires 0 ≤ n ≤ 8. The source does not check
  n_bits. A value above 8 makes the shift count on the `uint8` elements
  negative, and what happens then depends on NumPy's casting rules: NumPy 2
  refuses the negative Python int, while the older value-based casting shifts
  in a wider signed type. That case is not modelled.
- Sizes are `nat`. Negative sizes (which make `np.zeros` raise and `range`
  empty) are not modelled.
- Generator.GenerateImage: the source compares `F` with members of the
  `Generators` enum. The model takes the member's integer value `f`.
- Generator.GenerateImage: for generators 1, 2 and 3 with size 0, the list
  comprehension is empty and numpy builds an array of shape (0,). The model
  returns a 0-by-0 grid for all three.
- Sampler.SampleImage, Quantizer.QuantizeImage: when they raise IndexError,
  the contents written before the failing read are not stated.
- Metric.SumSquaredError: no size-mismatch error exists in the code. A
  reference with more rows or columns than needed is compared on its
  top-left len(image)-by-len(image) block only. A smaller one raises
  IndexError at the first missing cell.
- Metric.SumSquaredError: `float(...)` conversion of integer or byte grids
  is not modelled; both grids are real grids.
