/** Option, Result and Outcome: the error-return conventions of the Go source
    (`(*T, error)` pairs and bare `error` returns) written as datatypes. */
module Wrappers {

  datatype Option<+T> = None | Some(value: T)

  /** A value or an error, for Go functions returning `(T, error)`. */
  datatype Result<+T, +E> = Ok(value: T) | Err(error: E)

  /** Success or an error, for Go functions returning only `error`. */
  datatype Outcome<+E> = Pass | Fail(error: E)
}
