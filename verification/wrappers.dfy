/** Failure-carrying datatypes shared by the whole model. */
module Wrappers {

  /** A value that may be absent: a nullable column, an empty file slot, a query with no row. */
  datatype Option<+T> = None | Some(value: T)

  /** The outcome of an operation that either produces a value or fails with an error. */
  datatype Result<+T, +E> = Ok(value: T) | Err(error: E)
}
