/** What a handler produces and the HTTP status each result carries. */
module Http {
  import opened Users

  const InvalidIdMessage := "Invalid user ID."
  const NameRequiredMessage := "Name is required."
  const InvalidEmailMessage := "Invalid email format."
  const TestExceptionMessage := "This is a test exception."
  /** The message of .NET's OverflowException, thrown by checked integer arithmetic. */
  const OverflowMessage := "Arithmetic operation resulted in an overflow."

  /** The results the endpoints and the middleware write. */
  datatype Response =
    | Text(body: string)              // 200, plain text
    | UserList(users: seq<User>)      // 200, the whole list
    | Found(user: User)               // 200, one user
    | Created(user: User)             // 201, Location: /api/users/{id}
    | NoContent                       // 204
    | BadRequest(message: string)     // 400
    | Unauthorized                    // 401, {"message": "Unauthorized"}
    | NotFound                        // 404
    | ServerError(message: string)    // 500, {"message": ..., "detail": <stack trace>}

  function Status(r: Response): int {
    match r
    case Text(_) => 200
    case UserList(_) => 200
    case Found(_) => 200
    case Created(_) => 201
    case NoContent => 204
    case BadRequest(_) => 400
    case Unauthorized => 401
    case NotFound => 404
    case ServerError(_) => 500
  }

  /** How a handler ends: it returns a result, or it throws an exception with a message. */
  datatype Reply = Returned(response: Response) | Threw(message: string)

  /**
   * What the global exception boundary answers: a thrown exception becomes
   * a 500 carrying its message. Whether that answer reaches the client
   * depends on the logger further in (see Logging).
   */
  function Translate(reply: Reply): (r: Response)
    ensures Status(r) == 500 <==> reply.Threw? || Status(reply.response) == 500
    ensures reply.Threw? ==> r == ServerError(reply.message)
    ensures reply.Returned? ==> r == reply.response
  {
    match reply
    case Returned(response) => response
    case Threw(message) => ServerError(message)
  }
}
