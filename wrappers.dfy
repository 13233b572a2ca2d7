/** Failure-carrying result types used by the attendance engine. */
module Wrappers {

  /** An optional value: a regular-expression match, a parsed selection. */
  datatype Option<+T> = None | Some(value: T)

  /** The outcome of an operation that either completes or reports one error
      to the operator (an error popup in the application). */
  datatype Outcome<+E> = Pass | Fail(error: E)
}
