/** Option and Result values shared by the note server's modules. */
module Outcomes {

  datatype Option<+T> = None | Some(value: T)

  /** Why a database statement or a repository call failed. */
  datatype Error =
    | NotFound            // no row matched; index.js then dereferences `undefined`
    | ValueTooLong        // a value does not fit its varchar column
    | InvalidCharacter    // a text value contains U+0000, which PostgreSQL cannot store
    | ForeignKeyViolation // notes.user_id names no users.id
    | UnrecognisedAge     // a non-empty age that is none of the four known values

  datatype Result<+T> = Success(value: T) | Failure(error: Error)
}
