/** Optional values and the outcome of an operation that may raise. */
module Wrappers {

  datatype Option<+T> = None | Some(value: T)

  /** The exceptions the modelled Python code raises, by kind. */
  datatype Error =
    | ValueError(message: string)
    | IndexError
    | TypeError
    | DoesNotExist(model: string)
    | ValidationError(code: string)
    | IntegrityError
    | Exception(message: string)

  /** The value a call returns, or the exception it raises. */
  datatype Result<+T> = Ok(value: T) | Err(error: Error)
}
