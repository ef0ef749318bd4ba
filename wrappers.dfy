/** The Option and Result datatypes shared by the retention model. */
module Wrappers {

  /** A value that may be absent; used for the listing's continuation token. */
  datatype Option<T> = None | Some(value: T)

  /** The outcome of an operation of the platform that can throw. */
  datatype Result<T, E> = Ok(value: T) | Err(error: E)
}
