/** Shared error and result types for the back office model.

    The services signal failure by throwing an exception; the model
    returns the exception as a value instead. */
module Common {

  /** The HTTP exceptions the services throw (404, 400, 409), plus the
      database errors no handler maps (a unique-key or foreign-key violation,
      HTTP 500). */
  datatype Error =
    | NotFound(message: string)
    | BadRequest(message: string)
    | Conflict(message: string)
    | Internal(message: string)

  datatype Option<+T> = None | Some(value: T)

  /** The outcome of a service call: a value, or the exception it throws. */
  datatype Result<+T> = Ok(value: T) | Err(error: Error) {
    predicate IsFailure() {
      Err?
    }

    function PropagateFailure<U>(): Result<U>
      requires Err?
    {
      Err(error)
    }

    function Extract(): T
      requires Ok?
    {
      value
    }
  }

  /** The pages' guard on a destructive action: the id is sent only when
      the user confirms the `confirm()` prompt. */
  function IfConfirmed(confirmed: bool, id: int): (r: Option<int>)
    ensures r.Some? <==> confirmed
    ensures r.Some? ==> r.value == id
  {
    if confirmed then Some(id) else None
  }
}
