/** Option and Result, the two failure-carrying wrappers the model uses. */
module Wrappers {

  /** A value that may be absent; a lock record is `None` when its file does not exist. */
  datatype Option<+T> = None | Some(value: T)

  /** The outcome of a computation that may raise an error instead of returning a value. */
  datatype Result<+R, +E> = Success(value: R) | Failure(error: E)
}
