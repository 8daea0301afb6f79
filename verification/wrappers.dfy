/** Option and Result values: a missing value (NaN/NaT/None) and the
    exceptions the Python code raises are modelled as data. */
module Wrappers {

  datatype Option<+T> = None | Some(value: T) {
    function GetOr(default: T): T {
      match this
      case Some(v) => v
      case None => default
    }
  }

  /** The error kinds the modelled code raises. */
  datatype Error =
    | ValueError       // strptime could not match its format, int() could not parse
    | IndexError       // iloc[0] on an empty frame
    | ZeroDivisionError

  datatype Result<+T> = Success(value: T) | Failure(error: Error)
}
