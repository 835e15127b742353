/** Failure-aware result types shared by the scanner and the report builder. */
module Wrappers {

  datatype Option<+T> = None | Some(value: T)

  /** The outcome of an operation that either yields a value or aborts with an error,
      the way an exception aborts a Java method. */
  datatype Result<+T, +E> = Ok(value: T) | Err(error: E)
}
