/** Small failure-carrying datatypes shared by every module of the model. */
module Wrappers {

  /** A value that may be absent: JavaScript's `null`/`undefined`. */
  datatype Option<+T> = None | Some(value: T)

  /** The outcome of an operation that either succeeds with a value or fails with an error. */
  datatype Result<+T, +E> = Ok(value: T) | Err(error: E)

  /** The outcome of awaiting a collaborator that may throw: it either returns a value
      or raises an exception carrying a message. */
  datatype Attempt<+T> = Returned(value: T) | Threw(message: string)
}
