/** Failure-compatible result types used across the model, and the errors
    the pipeline raises. */
module Wrappers {

  /** An optional value: Python's `None` or a present argument. */
  datatype Option<+T> = None | Some(value: T)

  /** The outcome of an operation that either succeeds with a value or raises. */
  datatype Result<+R, +E> = Success(value: R) | Failure(error: E)

  /** The ways the pipeline can raise instead of returning contours. */
  datatype ExtractionError =
    | ShapeMismatch   // candidate mask and probability map differ in shape
    | NoEndpoints     // a non-empty skeleton without any endpoint candidate
}
