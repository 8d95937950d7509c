/** The Option and Result datatypes used across the model. */
module Wrappers {

  /** An optional value: Java's nullable reference, or "no value parsed". */
  datatype Option<+T> = None | Some(value: T)

  /** A value or an error: the model's stand-in for a thrown exception. */
  datatype Result<+T, +E> = Success(value: T) | Failure(error: E)
}
