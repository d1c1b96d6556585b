/** Failure-carrying wrappers shared by the other modules. */
module Wrappers {

  /** A value that may be absent; `None` stands for the source's `null`. */
  datatype Option<+T> = None | Some(value: T)

  /** The outcome of an operation that can throw; `Err` carries what was thrown. */
  datatype Result<+T, +E> = Ok(value: T) | Err(error: E)
}
