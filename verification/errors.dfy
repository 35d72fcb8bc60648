/** The sentinel errors of the library and the (value, error) pair that every
    checked operation returns. */
module Errors {

  /** The four failure reasons. `InvalidType` is used by the dynamic
      conversion dispatcher; the other three are the error variables the
      package declares. */
  datatype Error = Overflow | Truncation | DivisionByZero | InvalidType

  /** A Go `(T, error)` result. On failure the Go code returns the zero value
      of `T` next to the error; callers must not use it, so it is not kept. */
  datatype Result = Ok(value: int) | Err(error: Error)
}
