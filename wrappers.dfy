/** Option and Result, the two failure-carrying wrappers the rest of the model uses. */
module Wrappers {

  /** A value that may be absent: JavaScript's `undefined`/`null`, SQL's NULL. */
  datatype Option<+T> = None | Some(value: T)

  /** The outcome of a database statement: its result, or the error the driver throws. */
  datatype Result<+R, +E> = Ok(value: R) | Err(error: E)
}
