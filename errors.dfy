/**
 * The application error taxonomy of backend/src/errors.ts: an `AppError` carries a
 * machine-readable code, an HTTP status, a human-readable message and optional details,
 * and one constructor function per HTTP failure class fixes the status and the defaults.
 */
module Errors {
  import opened Base

  /** What an error may carry in `details`: a text, or the issue list of a failed validation. */
  datatype Detail = DetailText(text: string) | Issues(issues: seq<string>)

  /**
   * `new AppError(code, status, message, details)`: the fields are stored as given and the
   * message is the one handed to the base `Error`.
   */
  datatype AppError = AppError(code: string, status: int, message: string, details: Option<Detail>)

  /** `badRequest(code, message, details?)`: status 400 with exactly what it was given. */
  function BadRequest(code: string, message: string, details: Option<Detail> := None): (e: AppError)
    ensures e.status == 400
    ensures e.code == code && e.message == message && e.details == details
  {
    AppError(code, 400, message, details)
  }

  /** `unauthorized(code?, message?)`: status 401, no details. */
  function Unauthorized(code: string := "UNAUTHORIZED", message: string := "Unauthorized"): (e: AppError)
    ensures e.status == 401 && e.details == None
    ensures e.code == code && e.message == message
  {
    AppError(code, 401, message, None)
  }

  /** `forbidden(code?, message?)`: status 403, no details. */
  function Forbidden(code: string := "FORBIDDEN", message: string := "Forbidden"): (e: AppError)
    ensures e.status == 403 && e.details == None
    ensures e.code == code && e.message == message
  {
    AppError(code, 403, message, None)
  }

  /** `notFound(code?, message?)`: status 404, no details. */
  function NotFound(code: string := "NOT_FOUND", message: string := "Not Found"): (e: AppError)
    ensures e.status == 404 && e.details == None
    ensures e.code == code && e.message == message
  {
    AppError(code, 404, message, None)
  }

  /** `conflict(code?, message?)`: status 409, no details. */
  function Conflict(code: string := "CONFLICT", message: string := "Conflict"): (e: AppError)
    ensures e.status == 409 && e.details == None
    ensures e.code == code && e.message == message
  {
    AppError(code, 409, message, None)
  }

  /** `internal(message?, details?)`: always code INTERNAL_ERROR and status 500. */
  function Internal(message: string := "Internal Server Error", details: Option<Detail> := None): (e: AppError)
    ensures e.status == 500 && e.code == "INTERNAL_ERROR"
    ensures e.message == message && e.details == details
  {
    AppError("INTERNAL_ERROR", 500, message, details)
  }

  /** The defaults of the argument-less constructors. */
  lemma Defaults()
    ensures Unauthorized() == AppError("UNAUTHORIZED", 401, "Unauthorized", None)
    ensures Forbidden() == AppError("FORBIDDEN", 403, "Forbidden", None)
    ensures NotFound() == AppError("NOT_FOUND", 404, "Not Found", None)
    ensures Conflict() == AppError("CONFLICT", 409, "Conflict", None)
    ensures Internal() == AppError("INTERNAL_ERROR", 500, "Internal Server Error", None)
  {
  }

  /** The failure class a constructor stands for, read back from the status it sets. */
  datatype ErrorClass = BadRequestClass | UnauthorizedClass | ForbiddenClass | NotFoundClass
                      | ConflictClass | InternalClass | OtherClass

  function ClassOf(e: AppError): ErrorClass {
    match e.status
    case 400 => BadRequestClass
    case 401 => UnauthorizedClass
    case 403 => ForbiddenClass
    case 404 => NotFoundClass
    case 409 => ConflictClass
    case 500 => InternalClass
    case _ => OtherClass
  }

  /**
   * Every constructor is recognised by its status alone, whatever code, message and
   * details it was given, and only `badRequest` and `internal` can carry details.
   */
  lemma ConstructorsAreClassified(code: string, message: string, details: Option<Detail>)
    ensures ClassOf(BadRequest(code, message, details)) == BadRequestClass
    ensures ClassOf(Unauthorized(code, message)) == UnauthorizedClass
    ensures ClassOf(Forbidden(code, message)) == ForbiddenClass
    ensures ClassOf(NotFound(code, message)) == NotFoundClass
    ensures ClassOf(Conflict(code, message)) == ConflictClass
    ensures ClassOf(Internal(message, details)) == InternalClass
    ensures Unauthorized(code, message).details.None? && Forbidden(code, message).details.None?
    ensures NotFound(code, message).details.None? && Conflict(code, message).details.None?
  {
  }
}
