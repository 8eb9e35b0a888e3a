/** Option and Result values standing for the C++ null pointers, empty
    returns and thrown exceptions of the image library. */
module Wrappers {

  datatype Option<T> = None | Some(value: T)

  /** The exceptions the library throws (std::out_of_range, std::length_error,
      std::runtime_error), with the message where the source gives one. */
  datatype Exception =
    | OutOfRange(what: string)
    | LengthError
    | RuntimeError(what: string)

  /** The outcome of a call that may throw: a returned value or an exception. */
  datatype Result<T> = Ok(value: T) | Throw(error: Exception)

  /** The outcome of a void call that may throw. */
  datatype Outcome = Pass | Fail(error: Exception)
}
