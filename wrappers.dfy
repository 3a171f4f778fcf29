/** Failure-carrying values used for the environment probes that can throw or come back empty. */
module Wrappers {

  datatype Option<+T> = None | Some(value: T)

  /** The outcome of a Swift call marked `throws`: a value, or the error's description. */
  datatype Result<+T> = Success(value: T) | Failure(error: string)
}
