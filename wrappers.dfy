/** Python's `None`-or-value returns and raised exceptions, as values. */
module Wrappers {

  /** `None` stands for Python's `None` (an empty slot) or `False` (a search miss). */
  datatype Option<+T> = None | Some(value: T)

  /** The outcome of an operation that may raise. */
  datatype Result<+T, +E> = Success(value: T) | Failure(error: E)
}
