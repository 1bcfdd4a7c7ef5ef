/** Optional values and results with an error, as the model's callbacks return them. */
module Wrappers {

  /** A value that may be absent (`undefined` or `null` in the source). */
  datatype Option<+T> = None | Some(value: T)

  /** What a callback receives: a result, or an error and no result. */
  datatype Result<+T, +E> = Ok(value: T) | Err(error: E)
}
