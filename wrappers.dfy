/** Option and Result, the failure-carrying values the model returns where the source raises. */
module Wrappers {

  datatype Option<+T> = None | Some(value: T)

  /** `Failure` stands for a raised exception, carrying what it reports. */
  datatype Result<+T, +E> = Success(value: T) | Failure(error: E)
}
