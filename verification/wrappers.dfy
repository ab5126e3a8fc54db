/** Failure-compatible wrappers used throughout the model: `Option` for the
    Python `None` / pandas `NaN` / `NaT` values, `Result` for the calls that
    raise. */
module Wrappers {

  /** A value that may be missing (`None`, `NaN`, `NaT`). */
  datatype Option<+T> = None | Some(value: T)

  /** The outcome of an operation that either returns a value or raises. */
  datatype Result<+R, +E> = Success(value: R) | Failure(error: E)
}
