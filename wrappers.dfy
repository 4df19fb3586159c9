/** Failure-compatible result types shared by the strategy and object modules. */
module Wrappers {

  /** Something that may be absent: a missing member, an undefined JSON value. */
  datatype Option<+T> = None | Some(value: T)

  /** The outcome of an operation that the source ends with a thrown exception. */
  datatype Result<+R, +E> = Success(value: R) | Failure(error: E)
}
