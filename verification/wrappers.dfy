/** Failure-compatible wrappers shared by the whole model. */
module Wrappers {

  /** A value that may be absent (a Java null, an empty lookup). */
  datatype Option<+T> = None | Some(value: T)

  /** A computation that either yields a value or raises an error. */
  datatype Result<+T, +E> = Success(value: T) | Failure(error: E)

  /** The three ways a Reactor Mono settles: one value, completion without
      a value, or an error signal. */
  datatype Mono<+T, +E> = Just(value: T) | Empty | Error(error: E)
}
