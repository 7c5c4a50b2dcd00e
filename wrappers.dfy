/** Failure-carrying results shared by every module of the model.
    A Go `panic` or a JavaScript exception becomes an `Err`/`Fail` value. */
module Wrappers {

  datatype Option<+T> = None | Some(value: T)

  datatype Result<+T, +E> = Ok(value: T) | Err(error: E)

  datatype Outcome<+E> = Pass | Fail(error: E)
}
