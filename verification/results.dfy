/** Failure-carrying wrappers shared by every module of the ingestion model. */
module Results {

  /** An optional value: Python's "value or nothing" (a failed int() parse, a missing dict key). */
  datatype Option<+T> = None | Some(value: T)

  /** The outcome of an operation that can raise: `Ok` with the value, or `Err` with what was raised. */
  datatype Result<+T, +E> = Ok(value: T) | Err(error: E)
}
