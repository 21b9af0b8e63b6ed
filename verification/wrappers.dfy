/** Small failure-carrying datatypes shared by every module of the model. */
module Wrappers {

  /** A value that may be missing (a `null` or `undefined` in the client). */
  datatype Option<+T> = None | Some(value: T)

  /** The answer of one backing-store call: the returned data, or an error
      carrying its `message` text (possibly empty). */
  datatype Response<+T> = Ok(value: T) | Err(message: string)

  /** The answer of a write that returns no data. */
  datatype WriteResult = Done | Failed(message: string)
}
