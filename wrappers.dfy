/** Option, Result and Outcome: the model's stand-ins for Python's `None`,
    raised exceptions and `sys.exit` paths. */
module Wrappers {

  datatype Option<+T> = None | Some(value: T)

  /** The value of a call that either returns `value` or raises `error`. */
  datatype Result<+R, +E> = Success(value: R) | Failure(error: E)

  /** The value of a check that either passes or stops with `error`. */
  datatype Outcome<+E> = Pass | Fail(error: E)
}
