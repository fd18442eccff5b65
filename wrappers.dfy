/** Failure-compatible result types used throughout the model: a thrown
    exception of the C# program becomes a `None`, a `Failure` or a `Fail`. */
module Wrappers {

  datatype Option<+T> = None | Some(value: T)

  datatype Result<+R, +E> = Success(value: R) | Failure(error: E)

  /** The outcome of an operation that returns nothing of interest or throws. */
  datatype Outcome<+E> = Pass | Fail(error: E)
}
