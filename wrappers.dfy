/** Option and Result, the return shapes of every modelled handler. */
module Wrappers {

  datatype Option<+T> = None | Some(value: T)

  /** A handler either answers (Ok) or throws an error that the HTTP layer turns into a status code. */
  datatype Result<+T, +E> = Ok(value: T) | Err(error: E)
}
