/** Option and Result, the two failure-carrying shapes the model uses. */
module Wrappers {

  /** A value that may be absent: a store lookup with no match, or a date
      that reads as an invalid time value. */
  datatype Option<+T> = None | Some(value: T)

  /** The outcome of a request handler: a value, or the failure that the
      handler reports instead of a body. */
  datatype Result<+R, +E> = Success(value: R) | Failure(error: E)
}
