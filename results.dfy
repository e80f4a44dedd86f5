/** Failure-compatible wrappers used for the scripts' exceptions and missing values. */
module Results {

  datatype Option<+T> = None | Some(value: T)

  /** Either a value, or the error the script raises. */
  datatype Result<+T, +E> = Success(value: T) | Failure(error: E) {
    predicate IsFailure() { Failure? }

    function PropagateFailure<U>(): Result<U, E>
      requires Failure?
    {
      Failure(error)
    }

    function Extract(): T
      requires Success?
    {
      value
    }
  }
}
