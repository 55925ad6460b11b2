/** Optional values and success-or-exception results shared by the model. */
module Wrappers {

  /** A value that may be absent (Python's `None`, Terraform's `null`). */
  datatype Option<+T> = None | Some(value: T)

  /** The outcome of a Python call: a returned value or a raised exception. */
  datatype Result<+T, +E> = Success(value: T) | Failure(error: E)
}
