/** Optional values and results with an error, as returned by the operations of the tracker. */
module Wrappers {

  /** JavaScript's `null`/`undefined`/NaN on one side, a value on the other. */
  datatype Option<+T> = None | Some(value: T)

  /** A value, or the error an operation threw. */
  datatype Result<+T, +E> = Ok(value: T) | Err(error: E)
}
