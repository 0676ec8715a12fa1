/** Option and Result types shared by the validator model. */
module Wrappers {

  /** A value that may be absent; stands for a Java reference that may be null. */
  datatype Option<+T> = None | Some(value: T)

  /** Either a normal result or an abort. An abort models an API-misuse exception,
      which is kept apart from validation failures (those are plain data). */
  datatype Result<+T, +E> = Ok(value: T) | Abort(error: E)
}
