/** Failure-carrying values shared by the heartbeat and maintainer checks. */
module Wrappers {

  /** An error value as returned by a client call or a protobuf decoder. */
  datatype Error = Error(message: string)

  datatype Option<+T> = None | Some(value: T)

  /** A Go `(value, error)` pair in which exactly one side is meaningful. */
  datatype Result<+T> = Ok(value: T) | Err(error: Error)
}
