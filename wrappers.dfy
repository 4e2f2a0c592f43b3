/** Failure-compatible wrappers shared by the modules of the string calculator model. */
module Wrappers {

  /** A value that may be absent; `None` also stands for JavaScript's `null` and `NaN` results. */
  datatype Option<+T> = None | Some(value: T)

  /** A check that either passes or fails with an error value. */
  datatype Outcome<+E> = Pass | Fail(error: E)
}
