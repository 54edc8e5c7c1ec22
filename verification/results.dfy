/** Failure-carrying values shared by the extraction function and the gallery. */
module Results {

  /** A value that may be absent: JavaScript's `null`/`undefined`, or a failed resolution. */
  datatype Option<+T> = None | Some(value: T)

  /** The outcome of a step that can throw: a value, or the thrown error's `message`. */
  datatype Result<+T> = Ok(value: T) | Err(message: string)
}
