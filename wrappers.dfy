/** Optional values and outcomes that carry either a value or an error. */
module Wrappers {

  /** Python's `None` or a present value. */
  datatype Option<+T> = None | Some(value: T)

  /** A call that returned `value` or raised `error`. */
  datatype Result<+T, +E> = Ok(value: T) | Err(error: E)
}
