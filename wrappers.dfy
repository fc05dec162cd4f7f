/** Optional and failure-carrying results, used where the analysis returns
    either a value or `None`, or raises. */
module Wrappers {

  /** A value that may be missing: the analysis returns `None` for "no match". */
  datatype Option<+T> = None | Some(value: T)

  /** A value or an error: used where the analysis raises an exception. */
  datatype Result<+R, +E> = Success(value: R) | Failure(error: E)
}
