/** Optional values and the failures the backend reports.

    The handlers raise exceptions; here every operation that can fail returns a
    `Result` instead, and the `Failure` it carries says which exception it was. */
module Outcomes {

  datatype Option<+T> = None | Some(value: T)

  /** HTTP status codes the handlers raise. */
  const BAD_REQUEST: nat := 400
  const NOT_FOUND: nat := 404
  const SERVER_ERROR: nat := 500

  datatype Failure =
    | HttpError(status: nat)   // an HTTPException raised by the handler code itself
    | MultipleRowsFound        // a single-row query found more than one row
    | DuplicateGameId          // inserting a game whose primary key is already taken
    | MissingCell              // a row shorter than the header: `.strip()` on its `None` cell
    | NoCardsLoaded            // the data file yielded no card at all

  datatype Result<+T> = Ok(value: T) | Err(error: Failure) {

    predicate IsFailure() {
      Err?
    }

    function PropagateFailure<U>(): Result<U>
      requires Err?
    {
      Err(error)
    }

    function Extract(): T
      requires Ok?
    {
      value
    }
  }
}
