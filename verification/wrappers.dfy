/** Optional values and fallible results, standing for Python's `None` and for
    exceptions raised by foreign library calls. */
module Wrappers {

  /** A value that may be absent (`Optional[...]` with `None`). */
  datatype Option<+T> = None | Some(value: T)

  /** The outcome of a call that either returns a value or raises; the error
      carries the exception's message, `str(e)`. */
  datatype Result<+R, +E> = Success(value: R) | Failure(error: E)
}
