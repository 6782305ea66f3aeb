/** Option and Result, the two failure-carrying shapes used throughout the model. */
module Wrappers {

  /** `None` stands for JavaScript's `null`, or for `undefined` where a read falls off the end. */
  datatype Option<+T> = None | Some(value: T)

  /** The value of a JavaScript expression that either produces a value or throws. */
  datatype Result<+T> = Ok(value: T) | Err(error: string)
}
