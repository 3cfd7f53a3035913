/** Option and Result, the two failure-carrying shapes the inventory uses. */
module Wrappers {

  /** A value that may be missing (Python's `Optional[...]` / `None`). */
  datatype Option<+T> = None | Some(value: T)

  /** Either a value or a typed failure (the service's `HTTPException` paths). */
  datatype Result<+T, +E> = Success(value: T) | Failure(error: E)
}
