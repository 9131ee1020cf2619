/** Optional values and success/failure outcomes used throughout the model. */
module Wrappers {

  /** A value that may be absent, like a JSON key that `dict.get` does not find. */
  datatype Option<+T> = None | Some(value: T)

  /** The outcome of a step that either yields a value or fails with an error. */
  datatype Result<+R, +E> = Success(value: R) | Failure(error: E)
}
