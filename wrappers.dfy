/** Option and Result, used for pandas' missing values and for the errors the
    application raises. */
module Wrappers {

  /** A nullable value: `None` stands for pandas' NaN / NaT. */
  datatype Option<+T> = None | Some(value: T)

  /** The outcome of an operation that can fail with an error of type `E`. */
  datatype Result<+T, +E> = Ok(value: T) | Err(error: E)
}
