/** The errors the controller's handlers end in. */
module Errors {
  import opened Wrappers
  import opened Host

  datatype ApiError =
    | UserAlreadyExists      // BadRequestError 'User already exists'
    | NoUsersExist           // BadRequestError 'No users exist'
    | ExerciseAlreadyExists  // BadRequestError 'Exercise already exists'
    | NoSuchUser(id: Id)     // BadRequestError 'No user with _id <id> exists.'
    | NoExercises            // BadRequestError 'User has not added any exercises'
    | ValidationFailed       // Mongoose rejects a document against its schema, or cannot cast a value
    | InternalError          // a TypeError from reading a field of a user that is not there

  /**
   * The message a BadRequestError carries, with `idText` rendering an id as the
   * template literal does; the other two errors carry the library's own text.
   */
  function Message(e: ApiError, idText: Id -> string): (m: Option<string>)
    ensures m.None? <==> e == ValidationFailed || e == InternalError
    ensures e.NoSuchUser? ==> m == Some("No user with _id " + idText(e.id) + " exists.")
  {
    match e
    case UserAlreadyExists => Some("User already exists")
    case NoUsersExist => Some("No users exist")
    case ExerciseAlreadyExists => Some("Exercise already exists")
    case NoSuchUser(id) => Some("No user with _id " + idText(id) + " exists.")
    case NoExercises => Some("User has not added any exercises")
    case ValidationFailed => None
    case InternalError => None
  }
}
