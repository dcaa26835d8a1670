/** The failure side of the pipeline: the Python exceptions its functions raise, as values. */
module Outcomes {

  /** The exceptions raised by the modelled code, with the key or message they carry. */
  datatype Error =
    | IndexError
    | KeyError(key: string)
    | ValueError(message: string)
    | AssertionError
    | Exception(message: string)

  /** A returned value, or the exception raised instead. */
  datatype Result<+T> = Success(value: T) | Failure(error: Error)

  /** A value that may be absent. */
  datatype Option<T> = None | Some(value: T)
}
