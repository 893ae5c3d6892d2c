/** Failure-carrying values shared by the other modules: `Option` for a value
    that may be absent (a missing header, a missing page link), `Result` for
    an operation that either yields a value or fails with Go's error text. */
module Wrappers {

  datatype Option<+T> = None | Some(value: T)

  datatype Result<+T> = Ok(value: T) | Err(error: string)
}
