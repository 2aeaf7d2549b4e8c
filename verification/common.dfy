/** Vocabulary shared by the server routes and the client pages of the course
    marketplace: identifiers, timestamps, user roles, and the result shape of
    a server route (a success value or an HTTP failure). */
module Common {

  /** An opaque document identifier (a MongoDB ObjectId in the original). */
  type Id = nat

  /** An abstract timestamp; a larger value is later. */
  type Time = nat

  /** The three account roles. */
  datatype Role = Student | Instructor | Admin

  /** The role as the string the client compares against. */
  function RoleName(r: Role): string {
    match r
    case Student => "student"
    case Instructor => "instructor"
    case Admin => "admin"
  }

  /** The authenticated caller of a server route, as decoded from its token. */
  datatype Caller = Caller(userId: Id, role: Role)

  datatype Option<+T> = None | Some(value: T)

  /** An HTTP error reply: status code and message. */
  datatype Failure = Failure(status: nat, message: string)

  const OK: nat := 200
  const CREATED: nat := 201
  const BAD_REQUEST: nat := 400
  const FORBIDDEN: nat := 403
  const NOT_FOUND: nat := 404

  /** The outcome of a route: a value to send, or a failure reply. */
  datatype Result<+T> = Ok(value: T) | Err(failure: Failure) {
    predicate IsFailure() {
      Err?
    }

    function PropagateFailure<U>(): Result<U>
      requires Err?
    {
      Err(failure)
    }

    function Extract(): T
      requires Ok?
    {
      value
    }

    /** The HTTP status the route answers with, given its success status. */
    function Status(success: nat): nat {
      if Ok? then success else failure.status
    }
  }
}
