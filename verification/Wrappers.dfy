/** The two result types the model uses. */
module Wrappers {

  datatype Option<+T> = None | Some(value: T)

  /** Success, or the `InvalidArg` error (without its message text). */
  datatype Result<+T> = Ok(value: T) | Err
}
