/** Failure-carrying values shared by every handler of the model. */
module Results {

  /** A value that may be absent; stands for JavaScript's `null`/`undefined`. */
  datatype Option<+T> = None | Some(value: T)

  /** The typed failures a handler can raise instead of returning. */
  datatype Error = Unauthenticated | NotFound | Forbidden

  /** Either the handler's return value or the failure it threw. */
  datatype Result<+T> = Ok(value: T) | Err(error: Error)
}
