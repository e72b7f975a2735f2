/** Optional values and the outcome of a step that can fail. */
module Wrappers {

  /** A value that may be missing: a JavaScript `undefined`, or a step that threw. */
  datatype Option<+T> = None | Some(value: T)

  /** The value a step produced, or why it stopped. */
  datatype Result<+T, +E> = Ok(value: T) | Err(error: E)

}
