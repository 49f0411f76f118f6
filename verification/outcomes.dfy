/** Optional values and the outcome of an operation that may be refused. */
module Outcomes {

  /** A value that may be missing: a lookup that found nothing, a field that did not parse. */
  datatype Option<+T> = None | Some(value: T)

  /** The outcome of an operation that can throw: the new value, or the reason it was refused. */
  datatype Result<+T, +E> = Ok(value: T) | Err(error: E)
}
