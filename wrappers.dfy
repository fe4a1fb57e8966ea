/** Failure-compatible wrappers for the store's "nil" rows and Go `error` results. */
module Wrappers {

  /** A value that may be absent (Go's nil). */
  datatype Option<+T> = None | Some(value: T)

  /** A value together with a nil error, or a non-nil error. */
  datatype Result<+T, +E> = Ok(value: T) | Err(error: E)

  /** A bare Go `error`: nil (Pass) or not (Fail). */
  datatype Outcome<+E> = Pass | Fail(error: E)
}
