/** Optional and failure-carrying values: Option stands for a node's nullable `parent`
    pointer, Outcome and Result for the C++ calls that may throw an exception. */
module Wrappers {

  datatype Option<+T> = None | Some(value: T)

  /** The exceptions the modelled classes throw. */
  datatype Error = InvalidArgument(message: string)

  /** The outcome of a call that either returns normally or throws. */
  datatype Outcome = Pass | Fail(error: Error)

  /** The outcome of a call that either yields a value or throws. */
  datatype Result<+R> = Success(value: R) | Failure(error: Error)
}
