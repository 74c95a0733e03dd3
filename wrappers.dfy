/** Small failure-carrying datatypes shared by the modules of this model. */
module Wrappers {

  /** A value that may be absent (Python's `None`). */
  datatype Option<T> = None | Some(value: T)

  /** The outcome of a check that either passes or raises an exception. */
  datatype Outcome<E> = Pass | Fail(error: E)

  /** A value computed, or the exception raised instead. */
  datatype Result<T, E> = Success(value: T) | Failure(error: E)
}
