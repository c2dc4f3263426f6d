/** Failure-compatible results shared by the codec and the key scheme. */
module Wrappers {

  /** A value that may be absent; stands for a nullable Java reference. */
  datatype Option<+T> = None | Some(value: T)

  /** The two failure kinds of the key scheme: a key too short for what is read from it,
      and an entity that cannot be built from the decoded pairs. */
  datatype Error = MalformedKey | InvalidEntity

  /** The outcome of an operation that throws one of the errors above in the source. */
  datatype Result<+T> = Success(value: T) | Failure(error: Error)

  /** The outcome of an operation that throws or returns nothing. */
  datatype Outcome = Pass | Fail(error: Error)
}
