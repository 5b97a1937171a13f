/** Results that may be missing. */
module Wrappers {

  datatype Option<T> = None | Some(value: T)

  // Error stands for an exception or for a message that is dropped.
  datatype Result<T> = Ok(value: T) | Error
}
