/** Failure-carrying wrappers shared by every route of the store.

    A route either commits a new store state or fails; a failed route leaves
    the store as it was, because the handler's session never commits, or its
    commit is rolled back.
 */
module Base {

  /** A nullable value: `None` is the source's `None` / SQL `NULL`. */
  datatype Option<+T> = None | Some(value: T) {

    /** The value, or `default` when absent. */
    function GetOr(default: T): T {
      match this
      case Some(v) => v
      case None => default
    }
  }

  /** The ways a route fails. */
  datatype Error =
    | NotFound        // the handler raises HTTP 404
    | DuplicateName   // the unique index on category names rejects the commit
    | UnknownCategory // a foreign key names no live category

  /** The outcome of a route: the value it returns, or why it failed. */
  datatype Result<+T> = Ok(value: T) | Err(error: Error)
}
