/** Failure-compatible wrappers used across the model: an optional value (a nullable
    column or an absent argument) and the outcome of a step that can raise. */
module Wrappers {

  datatype Option<+T> = None | Some(value: T)

  datatype Result<+R, +E> = Success(value: R) | Failure(error: E)

  /** The exceptions the modelled Python code can raise. */
  datatype Error = IndexError
}
