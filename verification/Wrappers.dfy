/** Result types shared by the modules. The source's errors carry a message; only the
    fact of a validation error is kept. */
module Wrappers {
  datatype Option<+T> = None | Some(value: T)

  datatype Result<+T> = Ok(value: T) | ValidationError

  /** A call that may also stop the program instead of returning. */
  datatype Outcome<+T> = Returned(result: Result<T>) | Trapped
}
