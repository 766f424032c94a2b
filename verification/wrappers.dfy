/** Option and Result: the model's stand-ins for Java's nullable references
    and for methods that either return a value or throw. */
module Wrappers {

  /** A value that may be absent: `None` plays the role of Java's `null`. */
  datatype Option<+T> = None | Some(value: T)

  /** The outcome of a call that may throw: `Failure` carries the exception. */
  datatype Result<+T, +E> = Success(value: T) | Failure(error: E) {

    predicate IsFailure() {
      Failure?
    }

    function PropagateFailure<U>(): Result<U, E>
      requires Failure?
    {
      Failure(error)
    }

    function Extract(): T
      requires Success?
    {
      value
    }
  }
}

/** The exceptions `Artifact` and `Prototype` can raise, one constructor per
    Java exception class. */
module Errors {

  datatype Error =
    | IllegalArgument(message: string)   // java.lang.IllegalArgumentException
    | IllegalState(message: string)      // java.lang.IllegalStateException
    | NumberFormat(input: string)        // java.lang.NumberFormatException, for the offending text
    | NullPointer                        // java.lang.NullPointerException
    | MalformedId(coordinates: string)   // whatever ArtifactId.fromMvnId raises for bad coordinates
}
