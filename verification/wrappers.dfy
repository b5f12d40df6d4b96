/** Option and Result values used for "absent" cells and for the scripts' fatal errors. */
module Wrappers {

  /** `None` plays the role of pandas' missing value (Python `None` / NaN). */
  datatype Option<+T> = None | Some(value: T)

  /** The outcome of a step that can end the run with an error message. */
  datatype Result<+R, +E> = Success(value: R) | Failure(error: E)
}
