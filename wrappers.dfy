/** Option and Result: the error paths of the modelled routines. */
module Wrappers {

  /** A value that may be absent; for pixel data, None stands for NaN. */
  datatype Option<+T> = None | Some(value: T)

  /** The outcome of a routine that raises on bad arguments. */
  datatype Result<+R, +E> = Success(value: R) | Failure(error: E)
}
