/** Option and Result, the two failure-carrying datatypes the model uses. */
module Wrappers {

  datatype Option<+T> = None | Some(value: T)

  /** `Err` carries the Python exception that the modelled code lets escape. */
  datatype Result<+T, +E> = Ok(value: T) | Err(error: E)
}
