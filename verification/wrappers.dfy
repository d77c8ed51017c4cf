/** Option and Result datatypes used to model null handles, thrown
    exceptions and error returns of the compressor and its utilities. */
module Wrappers {

  /** A value that may be absent (a C++ null pointer, a Java null reference). */
  datatype Option<+T> = None | Some(value: T)

  /** Either a value or the error that the source reports instead of it. */
  datatype Result<+R, +E> = Success(value: R) | Failure(error: E) {
    predicate IsFailure() {
      Failure?
    }

    function PropagateFailure<U>(): Result<U, E>
      requires Failure?
    {
      Failure(error)
    }

    function Extract(): R
      requires Success?
    {
      value
    }
  }
}
