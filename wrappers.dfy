/** Option and Result values used for the source's `None` returns and raised exceptions. */
module Wrappers {

  datatype Option<+T> = None | Some(value: T)

  /** Why an operation of the messenger stops without completing. */
  datatype Failure =
    | NotFound            // `get_or_404` on an id that names no row (HTTP 404)
    | IntegrityViolation  // a primary-key or NOT NULL constraint refused the commit
    | StaleData           // a DELETE of an association row that does not exist
    | ValidationError     // `ValidationError` raised by `Chat.from_json`
    | NoCounterpart       // `get_name` found no other member: `None.username` raises
    | NotConnected        // `USER_WEBSOCKET_MAPPING[user_id]` raised `KeyError`

  datatype Result<+T> = Ok(value: T) | Err(failure: Failure)
}
