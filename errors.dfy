/**
 * The application's error classes and the two places that turn a thrown
 * error into an HTTP reply: the global error-handling middleware and the
 * controllers' shared `handleError`.
 */
module Errors {
  import opened Wrappers
  import opened Http

  /** The subclasses of BaseError, each with its fixed status code. */
  datatype AppError = ValidationError(message: string) | UnauthorizedError(message: string) | ConflictError(message: string) {
    function StatusCode(): int {
      match this
      case ValidationError(_) => 400
      case UnauthorizedError(_) => 401
      case ConflictError(_) => 409
    }

    function Name(): string {
      match this
      case ValidationError(_) => "ValidationError"
      case UnauthorizedError(_) => "UnauthorizedError"
      case ConflictError(_) => "ConflictError"
    }
  }

  /**
   * Anything a handler can throw: an application error, or any other error
   * with its `name`, its `message` and, for database errors, its `code`.
   */
  datatype Thrown = App(error: AppError) | Plain(name: string, message: string, code: Option<string>)

  const InternalServerError := "Internal server error"

  /** `errorHandlerMiddleware`: the reply for an error that reached the end of the chain. */
  function ErrorHandlerReply(e: Thrown): Reply {
    match e
    case App(a) => Reply(a.StatusCode(), TypedError(a.message, a.Name()))
    case Plain(name, message, code) =>
      if name == "PrismaClientKnownRequestError" then
        if code == Some("P2002") then Reply(409, TypedError("Resource already exists", "ConflictError"))
        else Reply(400, TypedError("Database operation failed", "DatabaseError"))
      else if name == "ValidationError" then Reply(400, TypedError(message, "ValidationError"))
      else Reply(500, TypedError(InternalServerError, "InternalServerError"))
  }

  /** `BaseController.handleError`. */
  function BaseHandleError(e: Thrown): Reply {
    match e
    case App(ValidationError(m)) => Reply(400, ErrorMessage(m))
    case App(UnauthorizedError(m)) => Reply(401, ErrorMessage(m))
    case App(ConflictError(m)) => Reply(409, ErrorMessage(m))
    case Plain(_, _, _) => Reply(500, ErrorMessage(InternalServerError))
  }

  /** An application error answers with its own status, message and class name. */
  lemma AppErrorsKeepTheirStatus(a: AppError)
    ensures ErrorHandlerReply(App(a)) == Reply(a.StatusCode(), TypedError(a.message, a.Name()))
    ensures a.StatusCode() in {400, 401, 409}
  {
  }

  /**
   * Both handlers give an application error the same status and message;
   * the middleware adds the class name.
   */
  lemma HandlersAgreeOnAppErrors(a: AppError)
    ensures BaseHandleError(App(a)).status == ErrorHandlerReply(App(a)).status == a.StatusCode()
    ensures BaseHandleError(App(a)).body.error == ErrorHandlerReply(App(a)).body.error == a.message
  {
  }

  /** A database error is 409 for a unique-constraint violation (P2002) and 400 otherwise. */
  lemma DatabaseErrors(message: string, code: Option<string>)
    ensures var r := ErrorHandlerReply(Plain("PrismaClientKnownRequestError", message, code));
            (r.status == 409 <==> code == Some("P2002")) && (r.status == 409 || r.status == 400) &&
            r.body.errorType == (if code == Some("P2002") then "ConflictError" else "DatabaseError")
  {
  }

  /**
   * Every reply of the middleware is one of five statuses, and a 500 never
   * carries the error's own message.
   */
  lemma ErrorHandlerStatuses(e: Thrown)
    ensures ErrorHandlerReply(e).status in {400, 401, 409, 500}
    ensures ErrorHandlerReply(e).status == 500 <==>
            e.Plain? && e.name != "PrismaClientKnownRequestError" && e.name != "ValidationError"
    ensures ErrorHandlerReply(e).status == 500 ==> ErrorHandlerReply(e).body == TypedError(InternalServerError, "InternalServerError")
  {
  }

  /**
   * The controllers' handler recognises only the error classes: an error that
   * merely carries the name "ValidationError" is a 400 for the middleware and
   * a 500 for the controllers, which never reveal its message.
   */
  lemma BaseHandleErrorHidesOtherErrors(e: Thrown)
    ensures BaseHandleError(e).status == 500 <==> e.Plain?
    ensures e.Plain? ==> BaseHandleError(e).body == ErrorMessage(InternalServerError)
    ensures e.Plain? && e.name == "ValidationError" ==> ErrorHandlerReply(e).status == 400
  {
  }
}
