/** Optional values and outcomes of calls that may fail. */
module Wrappers {

  datatype Option<+T> = None | Some(value: T)

  /** `Err` stands for the exception a call raises; the caller rolls back. */
  datatype Result<+T, +E> = Ok(value: T) | Err(error: E)
}
