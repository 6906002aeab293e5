/** Optional values and failures shared by the parser and the policy queries. */
module Results {

  /** Python's `None` versus a present value. */
  datatype Option<+T> = None | Some(value: T)

  /** The two exceptions the rule engine can raise.
      `ParseError` is the module's own exception class and carries its message;
      `ValueError` is the uncaught exception of Python's `int()` conversion. */
  datatype Error = ParseError(msg: string) | ValueError

  /** Either a value or the exception that interrupted the computation. */
  datatype Result<+T> = Ok(value: T) | Err(error: Error)
}
