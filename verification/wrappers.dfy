/** Failure-carrying datatypes shared by the modules of the downloader model. */
module Wrappers {

  /** A value that may be absent, as a missing key of a decoded JSON object is. */
  datatype Option<+T> = None | Some(value: T)

  /** The result of an operation that either produces a value or raises an error. */
  datatype Result<+R, +E> = Success(value: R) | Failure(error: E)
}
