/** Optional values and results that carry an error message, for the
    operations of the system that raise an exception on bad input. */
module Wrappers {
  datatype Option<T> = None | Some(value: T)

  /** The outcome of an operation that may raise: its value, or the message
      of the exception it raises. */
  datatype Result<T> = Success(value: T) | Failure(error: string)
}
