/** Optional values and results shared by the rest of the model. */
module Wrappers {

  /** A Go pointer or slice that may be nil: `None` is nil, `Some(v)` is set. */
  datatype Option<+T> = None | Some(value: T)

  /** The outcome of an operation that can abort: `Failure` stands for a Go panic or error return. */
  datatype Result<+R, +E> = Success(value: R) | Failure(error: E)
}
