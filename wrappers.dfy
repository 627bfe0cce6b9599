/** Failure-compatible return types standing in for C++ null pointers and thrown exceptions. */
module Wrappers {

  /** `None` stands for a null `shared_ptr`. */
  datatype Option<+T> = None | Some(value: T)

  /** The value of an operation that either returns normally or throws `error`. */
  datatype Result<+T, +E> = Success(value: T) | Failure(error: E)

  /** The outcome of a `void` operation: it returns normally or throws `error`. */
  datatype Outcome<+E> = Pass | Fail(error: E)
}
