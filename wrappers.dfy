/** Optional values and results with an error, shared by the other modules. */
module Wrappers {

  /** A value that may be absent: pandas' NaN / missing cell. */
  datatype Option<+T> = None | Some(value: T)

  /** The result of a step that may raise. */
  datatype Result<+R, +E> = Success(value: R) | Failure(error: E)
}
