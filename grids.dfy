/** Values shared by every stage of the image pipeline: the failures the
    Python code raises, a result type carrying them, and the grid-shape
    predicate. */
module Grids {

  /** The exceptions the modelled stages can raise. */
  datatype Error =
    | InvalidGenerator(selector: int)  // the ValueError of generate_image's last branch
    | ZeroDivision                     // ZeroDivisionError from `/` by a zero int
    | IndexOutOfRange                  // IndexError from indexing a numpy array

  /** The outcome of a stage: its value, or the exception it raises. */
  datatype Result<T> = Success(value: T) | Failure(error: Error)

  /** `a` has `size` rows and `size` columns. */
  predicate HasSize<T>(a: array2<T>, size: nat)
  {
    a.Length0 == size && a.Length1 == size
  }
}
