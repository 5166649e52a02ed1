/** Failure-carrying values used instead of the exceptions and `sys.exit`
    calls of the mailer. */
module Wrappers {

  datatype Option<+T> = None | Some(value: T)

  datatype Result<+T, +E> = Ok(value: T) | Err(error: E)
}
