/** Outcomes of operations that may throw in the source. */
module Wrappers {

  datatype Option<T> = None | Some(value: T)

  /** `Failure` stands for the exception the source throws. */
  datatype Result<T, E> = Success(value: T) | Failure(error: E)
}
