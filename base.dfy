/** Option and Result wrappers shared by every module of the model.
    `Err` carries the message the Python code raises or returns. */
module Base {

  datatype Option<+T> = None | Some(value: T)

  datatype Result<+T> = Ok(value: T) | Err(error: string)

  /** The message of a `KeyError` raised for the missing key `c`. */
  function KeyError(c: string): string
  {
    "KeyError: '" + c + "'"
  }
}
