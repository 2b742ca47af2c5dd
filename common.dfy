/** Shared vocabulary of the treasure-hunt API model: optional values, the
    errors the API rejects with, how one call's promise ends, and what one
    browser-storage key holds. */
module Common {

  datatype Option<+T> = None | Some(value: T)

  /** Milliseconds since the epoch, as read from the host clock. */
  type Timestamp = nat

  /** The four `Error`s the API rejects with. */
  datatype ApiError =
    | ClueNotUnderstood   // searchTemple: the clue lacks the temple word
    | UsernameTaken       // registerUser: the name is already registered
    | UserNotFound        // loginUser: no user has that name
    | InvalidCredentials  // loginUser: the encoded password differs

  /** How the promise returned by one API call ends. `Unsettled` is the case
      where an exception escapes the timer callback: nothing calls resolve or
      reject, so the caller waits forever. */
  datatype Outcome<+T> = Resolved(value: T) | Rejected(error: ApiError) | Unsettled

  /** What one storage key holds: nothing (missing or empty text), text that
      does not parse as JSON, or a parsed array. */
  datatype Slot<+T> = Absent | Corrupt | Parsed(items: seq<T>) {
    /** The array a tolerant reader sees: unparsable or missing data reads as empty. */
    function Items(): seq<T> {
      if Parsed? then items else []
    }
  }

  /** The outcome of one call together with the storage key's contents afterwards. */
  datatype Transition<+T, +E> = Transition(outcome: Outcome<T>, after: Slot<E>)
}
