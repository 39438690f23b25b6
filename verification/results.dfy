/** Option and Result, the two failure-carrying shapes used throughout the model. */
module Results {

  /** A value that may be absent, such as the reply to a GET of a missing key. */
  datatype Option<+T> = None | Some(value: T)

  /** Either a value or the error that prevented computing it. */
  datatype Result<+T, +E> = Success(value: T) | Failure(error: E)
}
