/**
 * Errors the decoder reports, and the (value, error) pair every decoding step
 * returns, as a failure-compatible Result.
 */
module Errors {

  datatype Error =
    /** The sentinel `errUnsupportedType`: the Starlark kind has no Go counterpart. */
    | UnsupportedType
    /** The error of `starlark.AsInt32`: the integer `n` does not fit 32 signed bits. */
    | OutOfRange(n: int)
    /** Any error of the struct-binding library's `NewDecoder` (an unusable target). */
    | InvalidConfig

  datatype Result<+T> = Success(value: T) | Failure(error: Error) {

    predicate IsFailure() {
      Failure?
    }

    function PropagateFailure<U>(): Result<U>
      requires Failure?
    {
      Failure(error)
    }

    function Extract(): T
      requires Success?
    {
      value
    }
  }
}
