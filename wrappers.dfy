/** Optional values, and results that carry either a value or one of the
    exceptions the modelled Python code raises. */
module Wrappers {

  /** Python's `None` or a present value. */
  datatype Option<+T> = None | Some(value: T)

  /** The exception classes the modelled code raises, with their messages. */
  datatype Error =
    | ValueError(message: string)
    | NotImplementedError(message: string)
    | TypeError(message: string)

  /** Either a returned value or a raised exception. */
  datatype Result<+T> = Success(value: T) | Failure(error: Error) {
    predicate IsFailure() { Failure? }

    function PropagateFailure<U>(): Result<U>
      requires Failure?
    {
      Failure(error)
    }

    function Extract(): T
      requires Success?
    {
      value
    }
  }
}
