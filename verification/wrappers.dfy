/** Option and Result, the two failure-carrying shapes the model uses for
    JavaScript's `undefined` / optional chaining and for thrown errors. */
module Wrappers {

  datatype Option<+T> = None | Some(value: T)

  /** A computation that either produces a value or stops with an error (a
      thrown `Error` or a failed `assert` in the scripts). */
  datatype Result<+R, +E> = Ok(value: R) | Err(error: E)
}
