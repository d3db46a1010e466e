/** Optional values and results of calls that may raise. */
module Wrappers {

  /** A Python value that may be `None` (or a dictionary key that may be absent). */
  datatype Option<T> = None | Some(value: T)

  /** The outcome of a call into a collaborator that may raise an exception. */
  datatype Result<T> = Success(value: T) | Failure(error: string)
}
