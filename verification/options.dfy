/** Optional values: Python's `None`-or-value returns, and the outcome of a
    provider call that may raise. */
module Options {

  /** A value that may be absent (Python's `None`). */
  datatype Option<+T> = None | Some(value: T)

  /** The outcome of a call that either returns a value or raises an
      exception whose `str(e)` is `detail`. */
  datatype Fetch<+T> = Fetched(value: T) | Raised(detail: string)
}
