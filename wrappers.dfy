/** Optional values and error results shared by every module of the model. */
module Wrappers {
  /** Python's `None` versus a present value. */
  datatype Option<T> = None | Some(value: T)

  /** Either a value or the reason the source program would raise. */
  datatype Result<T, E> = Ok(value: T) | Err(error: E)
}
