/** Failure-carrying values used where the Go code returns an `error` alongside a result. */
module Outcomes {

  /** A value that may be absent; `None` plays the role of a nil `error`. */
  datatype Option<+T> = None | Some(value: T)

  /** A result, or the text of the error that replaced it. */
  datatype Result<+T> = Ok(value: T) | Err(error: string)
}
