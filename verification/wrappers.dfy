/**
 * Failure-carrying values: `Option` stands for the source's `None`-or-value returns,
 * `Result` for a value or the exception the source would raise.
 */
module Wrappers {

  datatype Option<+T> = None | Some(value: T)

  datatype Result<+T, +E> = Success(value: T) | Failure(error: E)
}
