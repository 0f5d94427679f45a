/** Failure-compatible result types shared by the model. */
module Wrappers {

  /** A value that may be absent (`null` or a missing key in the source). */
  datatype Option<+T> = None | Some(value: T)

  /** The outcome of an operation that throws in the source. */
  datatype Result<+R, +E> = Ok(value: R) | Err(error: E)
}
