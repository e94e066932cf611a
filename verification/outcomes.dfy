/** Small failure-carrying datatypes shared by the modules of this model. */
module Outcomes {

  /** A value that may be absent: JavaScript's `null`/`undefined` alternatives. */
  datatype Option<+T> = None | Some(value: T)

  /** Either a value or the error a JavaScript function would have thrown. */
  datatype Result<+T, +E> = Ok(value: T) | Err(error: E)
}
