/** Failure-compatible wrappers shared by the other modules. */
module Wrappers {

  /** A value that may be absent. A JavaScript property read that yields
      `undefined` is modelled as `None`. */
  datatype Option<+T> = None | Some(value: T)

  /** The outcome of a step that may throw: `Failure` carries the reason. */
  datatype Result<+T, +E> = Success(value: T) | Failure(error: E)
}
