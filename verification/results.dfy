/** Optional values, computations that may fail, and controller replies. */
module Results {

  datatype Option<+T> = None | Some(value: T)

  /** A computation that either produces a value or stops with an error,
      usable with `:-`. Models a .NET exception as a value. */
  datatype Result<+T, +E> = Success(value: T) | Failure(error: E) {
    predicate IsFailure() { Failure? }

    function PropagateFailure<U>(): Result<U, E>
      requires Failure?
    {
      Failure(error)
    }

    function Extract(): T
      requires Success?
    {
      value
    }
  }

  /** The HTTP status of a controller action that did not succeed. */
  datatype Status = BadRequest | Unauthorized | NotFound | Conflict

  /** What a controller action answers: `Ok(body)`, `CreatedAtAction(body)`,
      `NoContent()`, or one of the error statuses. */
  datatype Reply<+T> = Ok(body: T) | Created(body: T) | NoContent | Error(status: Status)

  /** The store after an action, together with the action's reply. */
  datatype Response<S, T> = Response(store: S, reply: Reply<T>)
}
