/** Small option-like datatypes shared by every module of the model. */
module Wrappers {

  /** A value that may be absent: JavaScript's `undefined` (and, for numbers, `NaN`). */
  datatype Option<+T> = None | Some(value: T)

  /** The result of a call that either returns a value or raises an exception. */
  datatype Outcome<+T> = Returns(value: T) | Throws
}
