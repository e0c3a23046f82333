/** Option and Outcome, used wherever the modelled code returns null or throws. */
module Wrappers {

  /** A Java or JavaScript reference that may be null. */
  datatype Option<+T> = None | Some(value: T)

  /** The outcome of an operation that either returns a value or raises an error. */
  datatype Outcome<+R, +E> = Ok(value: R) | Err(error: E)
}
