/** Failure-carrying results for the Java exceptions the modelled code raises. */
module Wrappers {

  datatype Option<T> = None | Some(value: T)

  /** The exceptions of the modelled code that are part of its behaviour. */
  datatype JavaException =
    | IllegalArgumentException  // Stream.limit(n) with n < 0; a non-positive hit limit for the engine
    | AssertionError            // getGitRepoName on a URI path with no name segment

  datatype Result<T> = Success(value: T) | Failure(error: JavaException)
}
