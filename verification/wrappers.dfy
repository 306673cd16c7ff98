/** Option and Result: the absent value of a C# nullable, and an exception
    that propagates out of an operation, written as values. */
module Wrappers {

  /** A C# `long?` or a nullable string: either absent or a value. */
  datatype Option<+T> = None | Some(value: T)

  /** The value of an operation that either returns normally or throws. */
  datatype Result<+R, +E> = Success(value: R) | Failure(error: E)
}
