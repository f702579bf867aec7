/** Small result types shared by the modules of this model. */
module Wrappers {

  /** A value that may be absent: JavaScript's `null`/`undefined` versus a value. */
  datatype Option<+T> = None | Some(value: T)

  /** The outcome of an operation that can throw: its value, or the message of the error thrown. */
  datatype Outcome<+T> = Ok(value: T) | Fail(message: string)
}
