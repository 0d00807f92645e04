/** Optional values and failure-carrying results, used where the JavaScript
    source has `undefined` fields or throws. */
module Wrappers {

  /** A value that may be absent (`undefined` in the source). */
  datatype Option<+T> = None | Some(value: T)

  /** Either a value or the error that the source would throw instead. */
  datatype Result<+R, +E> = Success(value: R) | Failure(error: E)
}
