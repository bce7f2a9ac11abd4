/** Optional values and error-carrying results shared by the whole model. */
module Wrappers {

  /** An absent or present value. Stands for JavaScript's `null`, for a field
      that may be missing, and for a `Number(...)` conversion that gave `NaN`. */
  datatype Option<+T> = None | Some(value: T)

  /** The outcome of a call that either returns a value or throws an error. */
  datatype Result<+T, +E> = Ok(value: T) | Err(error: E)

  /** The outcome of a call that returns nothing or throws an error. */
  datatype Outcome<+E> = Pass | Fail(error: E)
}
