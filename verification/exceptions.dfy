/**
  The error taxonomy of the movie-rental domain, and the small wrappers the
  entity and repository operations use to report an error instead of raising.
 */
module Exceptions {

  /** The three domain errors, plus the missing-key failure of a dictionary deletion. */
  datatype Error =
    | ForbiddenOperation   // structurally disallowed: a second active rental, fewer than one rent day
    | Operation            // invalid in the current state: nothing to finish, nothing to return, a date too early
    | OutOfStock           // no copy left to rent
    | KeyError             // deleting a key the repository does not hold

  /** An optional value: `None` stands for the source's `None`. */
  datatype Option<+T> = None | Some(value: T)

  /** An operation that either completes with a new value or raises an error and changes nothing. */
  datatype Result<+T> = Ok(value: T) | Err(error: Error)

  /** An operation that may raise after it has already changed its object:
      `state` is what the object holds afterwards, `raised` the error, if any. */
  datatype Outcome<+T> = Outcome(state: T, raised: Option<Error>)
}
