/** `Option` and `Result` for the renderer model. `Result` has the three
    members the `:-` operator needs, so the asset loaders can stop at the
    first path that does not resolve. */
module Wrappers {

  /** A value that may be absent: the model's reading of `null` / `undefined`. */
  datatype Option<+T> = None | Some(value: T)

  /** A loaded value, or the error that stopped the load. */
  datatype Result<+T, +E> = Success(value: T) | Failure(error: E) {

    predicate IsFailure() {
      Failure?
    }

    function PropagateFailure<U>(): Result<U, E>
      requires Failure?
    {
      Failure(error)
    }

    function Extract(): T
      requires Success?
    {
      value
    }
  }
}
