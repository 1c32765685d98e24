/** Option and Result, and the Python exceptions the helpers raise. */
module Wrappers {

  datatype Option<+T> = None | Some(value: T)

  datatype Result<+R, +E> = Success(value: R) | Failure(error: E)

  /** The exceptions raised by the modelled helpers. */
  datatype PyError =
    | ValueError(message: string)
    | IndexError(message: string)

  /** Python values for the worked examples of several modules: None, an int, a str. */
  datatype PyValue = PyNone | PyInt(int) | PyStr(string)
}
