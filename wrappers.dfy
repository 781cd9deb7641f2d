/** The optional-value and result types shared by the other modules. */
module Wrappers {

  /** A value that may be absent, as Python's `None`. */
  datatype Option<+T> = None | Some(value: T)

  /** The outcome of a dictionary lookup: the value, or the `KeyError` Python raises. */
  datatype Result<+T> = Success(value: T) | KeyError(key: string)
}
