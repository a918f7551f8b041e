/** Option and Result, the two failure-carrying shapes the organizer's Rust code relies on. */
module Wrappers {

  datatype Option<+T> = None | Some(value: T)

  datatype Result<+T, +E> = Success(value: T) | Failure(error: E)
}
