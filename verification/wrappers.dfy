/** Failure-carrying values shared by the other modules. */
module Wrappers {

  /** A value that may be missing; Go expresses this with a `-1` index sentinel. */
  datatype Option<+T> = None | Some(value: T)

  /** The result of an operation that only reports an error, as Go's `error`:
      `Pass` stands for a nil error. */
  datatype Outcome<+E> = Pass | Fail(error: E)
}
