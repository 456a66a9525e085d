/** Failures the memory layer reports to its callers, and the result types that carry them. */
module RiveErrors {

  /** The exceptions the runtime raises. */
  datatype Error =
      /** A property of a native object was read after that object was freed. */
    | RiveException
      /** `release()` was called on an object whose reference count is already 0. */
    | IllegalArgumentException
      /** The native engine has no artboard, state machine or animation at the requested index. */
    | NotFound

  /** The result of an operation that returns a value or throws. */
  datatype Result<+T> = Ok(value: T) | Err(error: Error)

  /** The result of an operation that returns nothing or throws. */
  datatype Outcome = Pass | Fail(error: Error)

  datatype Option<+T> = None | Some(value: T)
}
