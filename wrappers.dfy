/** Option and Result, the two failure-carrying datatypes the model uses in place of
    .NET null references and exceptions. */
module Wrappers {

  datatype Option<+T> = None | Some(value: T)

  /** The way a canonicalisation run can fail, aborting the whole call: the
      N-degree hasher found its instance counter exhausted. Dictionary lookups of
      absent keys cannot happen here, because every identifier looked up is a
      blank node of the index. */
  datatype Error = RecursionLimitReached

  datatype Result<+T> = Success(value: T) | Failure(error: Error)
}
