/** Option and Result, the two wrappers the watchdog's fallible steps return. */
module Results {

  /** A value that may be absent (an environment variable that is not set). */
  datatype Option<T> = None | Some(value: T)

  /** The outcome of a step that can fail, carrying either its value or its error. */
  datatype Result<T, E> = Ok(value: T) | Err(error: E)
}
