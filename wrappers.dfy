/** Option, Result, outcome and reply types shared by the whole model. */
module Wrappers {

  /** A value that may be absent: a missing request parameter, a nullable foreign key. */
  datatype Option<+T> = None | Some(value: T)

  /** The outcome of a check that either hands back a value or fails with a message. */
  datatype Result<+T> = Ok(value: T) | Err(message: string)

  /** The outcome of a validation that returns nothing but may raise a `ValidationError`. */
  datatype Outcome = Pass | Fail(message: string)

  /** An HTTP response reduced to its status code and the message it carries. */
  datatype Reply = Reply(status: int, message: string)
}
