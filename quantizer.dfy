/** The quantisation stage after the float grid has been scaled to [0, 255]
    and cast to bytes: every byte keeps its top `nBits` bits and clears the
    other 8 - nBits, by a right shift followed by a left shift. */
module Quantizer {
  import opened Grids
  import opened Arith

  /** An element of a `uint8` array. */
  type Byte = b: int | 0 <= b < 256

  /** 2 to the power k. */
  function Pow2(k: nat): (p: nat)
    ensures 1 <= p
  {
    if k == 0 then 1 else 2 * Pow2(k - 1)
  }

  /** `v >> k` on a non-negative value: k times, the lowest bit is dropped. */
  function ShiftRight(v: nat, k: nat): nat
    decreases k
  {
    if k == 0 then v else ShiftRight(v / 2, k - 1)
  }

  /** `v << k`: k times, a zero bit is appended. */
  function ShiftLeft(v: nat, k: nat): nat
    decreases k
  {
    if k == 0 then v else ShiftLeft(2 * v, k - 1)
  }

  /** A right shift by k is floor division by 2^k. */
  lemma {:induction false} ShiftRightDivides(v: nat, k: nat)
    ensures ShiftRight(v, k) == v / Pow2(k)
    decreases k
  {
    if k != 0 {
      ShiftRightDivides(v / 2, k - 1);
      HalveThenDivide(v, Pow2(k - 1));
    }
  }

  /** A left shift by k is multiplication by 2^k. */
  lemma {:induction false} ShiftLeftMultiplies(v: nat, k: nat)
    ensures ShiftLeft(v, k) == v * Pow2(k)
    decreases k
  {
    if k != 0 {
      ShiftLeftMultiplies(2 * v, k - 1);
      assert (2 * v) * Pow2(k - 1) == v * (2 * Pow2(k - 1));
    }
  }

  /** Exponents add. */
  lemma {:induction false} Pow2Add(a: nat, b: nat)
    ensures Pow2(a) * Pow2(b) == Pow2(a + b)
  {
    if a != 0 {
      Pow2Add(a - 1, b);
      assert Pow2(a) * Pow2(b) == 2 * (Pow2(a - 1) * Pow2(b));
    }
  }

  /** Eight bits span the byte range. */
  lemma Pow2Eight()
    ensures Pow2(8) == 256
  {
  }

  /** The value one cell of `quantize_image` holds after
      `(v >> (8 - nBits)) << (8 - nBits)`: v rounded down to a multiple of
      2^(8 - nBits). */
  function MaskLowBits(v: Byte, nBits: nat): (r: Byte)
    requires nBits <= 8
    ensures r == ShiftLeft(ShiftRight(v, 8 - nBits), 8 - nBits)
  {
    var p := Pow2(8 - nBits);
    ShiftRightDivides(v, 8 - nBits);
    ShiftLeftMultiplies(v / p, 8 - nBits);
    FloorMultipleBelow(v, p);
    (v / p) * p
  }

  /** The masked value is a multiple of 2^(8 - nBits), is not above the
      input and lies within 2^(8 - nBits) below it, and is the largest
      such multiple. */
  lemma MaskIsFloorToMultiple(v: Byte, nBits: nat, m: int)
    requires nBits <= 8
    ensures MaskLowBits(v, nBits) % Pow2(8 - nBits) == 0
    ensures MaskLowBits(v, nBits) <= v
    ensures v - MaskLowBits(v, nBits) < Pow2(8 - nBits)
    ensures m * Pow2(8 - nBits) <= v ==> m * Pow2(8 - nBits) <= MaskLowBits(v, nBits)
  {
    var p := Pow2(8 - nBits);
    var q := v / p;
    assert MaskLowBits(v, nBits) == q * p;
    MultipleDivides(q, p);
    FloorMultipleBelow(v, p);
    if m * p <= v {
      FloorIsGreatest(v, p, m);
      MulMonotone(m, q, p);
    }
  }

  /** The mask leaves at most 2^nBits distinct levels: the kept bits, read
      as a number, are below 2^nBits. */
  lemma MaskLevels(v: Byte, nBits: nat)
    requires nBits <= 8
    ensures ShiftRight(MaskLowBits(v, nBits), 8 - nBits) < Pow2(nBits)
  {
    var p := Pow2(8 - nBits);
    var q := v / p;
    MultipleDivides(q, p);
    ShiftRightDivides(MaskLowBits(v, nBits), 8 - nBits);
    Pow2Add(nBits, 8 - nBits);
    Pow2Eight();
    if Pow2(nBits) <= q {
      MulMonotone(Pow2(nBits), q, p);
    }
  }

  /** Keeping all 8 bits changes nothing; keeping none clears the byte. */
  lemma MaskExtremes(v: Byte)
    ensures MaskLowBits(v, 8) == v
    ensures MaskLowBits(v, 0) == 0
  {
    Pow2Eight();
  }

  /** Masking twice is masking once. */
  lemma MaskIdempotent(v: Byte, nBits: nat)
    requires nBits <= 8
    ensures MaskLowBits(MaskLowBits(v, nBits), nBits) == MaskLowBits(v, nBits)
  {
    var p := Pow2(8 - nBits);
    var q := v / p;
    assert MaskLowBits(v, nBits) == q * p;
    MultipleDivides(q, p);
  }

  /** Keeping fewer bits never yields a larger value. */
  lemma MaskMonotoneInBits(v: Byte, nBits: nat, nBits': nat)
    requires nBits <= nBits' <= 8
    ensures MaskLowBits(v, nBits) <= MaskLowBits(v, nBits')
  {
    var p' := Pow2(8 - nBits');
    var c := Pow2(nBits' - nBits);
    Pow2Add(nBits' - nBits, 8 - nBits');
    assert Pow2(8 - nBits) == c * p';
    CoarserFloorBelow(v, c, p');
  }

  /** The loop of `quantize_image` over a byte grid: rows and columns are
      both counted by the number of rows, each visited cell is masked in
      place, and a grid with fewer columns than rows raises IndexError. */
  method QuantizeImage(image: array2<Byte>, nBits: nat) returns (r: Result<array2<Byte>>)
    requires nBits <= 8
    modifies image
    ensures 0 < image.Length0 && image.Length1 < image.Length0 <==> r == Failure(IndexOutOfRange)
    ensures r.Success? ==> r.value == image
    ensures r.Success? ==> forall i, j :: 0 <= i < image.Length0 && 0 <= j < image.Length1 ==>
              image[i, j] == if j < image.Length0 then MaskLowBits(old(image[i, j]), nBits) else old(image[i, j])
  {
    var size := image.Length0;
    var i := 0;
    while i < size
      invariant 0 <= i <= size
      invariant 0 < i ==> size <= image.Length1
      invariant forall a, b :: 0 <= a < size && 0 <= b < image.Length1 ==>
                  image[a, b] == if a < i && b < size then MaskLowBits(old(image[a, b]), nBits) else old(image[a, b])
    {
      var j := 0;
      while j < size
        invariant 0 <= j <= size
        invariant 0 < i ==> size <= image.Length1
        invariant j <= image.Length1
        invariant forall a, b :: 0 <= a < size && 0 <= b < image.Length1 ==>
                    image[a, b] == if (a < i && b < size) || (a == i && b < j) then MaskLowBits(old(image[a, b]), nBits) else old(image[a, b])
      {
        if image.Length1 <= j {
          return Failure(IndexOutOfRange);
        }
        ghost var masked := MaskLowBits(image[i, j], nBits);
        image[i, j] := ShiftLeft(ShiftRight(image[i, j], 8 - nBits), 8 - nBits);
        j := j + 1;
      }
      i := i + 1;
    }
    r := Success(image);
  }
}
