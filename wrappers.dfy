/** An optional value, and a value or an error. */
module Wrappers {

  /** A value that may be absent; `None` stands for Python's `None` and pandas' NaN. */
  datatype Option<+T> = None | Some(value: T)

  /** The outcome of an operation that raises in the source: `Failure` carries what was raised. */
  datatype Result<+R, +E> = Success(value: R) | Failure(error: E)
}
