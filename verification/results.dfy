/** Failure-carrying values shared by every module: the Go code returns
    `(value, error)` pairs and `error` alone; these datatypes stand for them. */
module Results {

  /** A value that may be absent (a nil pointer, a failed decode). */
  datatype Option<+T> = None | Some(value: T)

  /** A Go `(value, error)` pair where exactly one side is meaningful. */
  datatype Result<+T, +E> = Ok(value: T) | Err(error: E)

  /** A Go `error` return with no value beside it: nil or an error. */
  datatype Outcome<+E> = Pass | Fail(error: E)
}
