/**
 * The last two handlers of the Express chain in backend/src/server.ts: the catch-all
 * "route not found" handler and the unified error handler that turns whatever was
 * passed to `next(err)` into `{ error: { code, message, details? } }` with a status.
 */
module ErrorHandler {
  import opened Base
  import opened Errors

  /** What a handler can pass to `next(err)`. */
  datatype Thrown =
    | Raised(e: AppError)            // an AppError from one of the constructors
    | ZodError(issues: seq<string>)  // a validation error that carries `issues`
    | PlainError(status: Option<int>, code: Option<string>, message: string)
      // any other Error: a body-parser error has a status (400 for malformed JSON, 413 for a
      // body over the 1mb limit) and no string code; a database driver error has a string code

  datatype ErrorBody = ErrorBody(code: string, message: string, details: Option<Detail>)

  datatype ErrorResponse = ErrorResponse(status: int, error: ErrorBody)

  /** The "not found" fallback: every unmatched route becomes this error. */
  function RouteNotFound(): (e: AppError)
    ensures e.status == 404 && e.code == "NOT_FOUND" && e.message == "Not Found"
  {
    AppError("NOT_FOUND", 404, "Not Found", None)
  }

  /** JavaScript truthiness of a details value: an empty string is falsy. */
  predicate IsTruthy(d: Detail) {
    !(d.DetailText? && d.text == "")
  }

  /** `...(details ? { details } : {})`: a falsy or absent details value is left out. */
  function PresentDetails(d: Option<Detail>): (r: Option<Detail>)
    ensures r.Some? <==> d.Some? && IsTruthy(d.value)
    ensures r.Some? ==> r == d
  {
    if d.Some? && IsTruthy(d.value) then d else None
  }

  /**
   * The unified error handler. `None`: headers were already sent, so nothing is written.
   * `Number(err.status) || 500` turns a missing or zero status into 500; a missing code
   * becomes INTERNAL_ERROR for status 500 and ERROR otherwise; an empty message is
   * replaced by a default in the same way.
   */
  function HandleError(err: Thrown, headersSent: bool): (r: Option<ErrorResponse>)
    ensures r.None? <==> headersSent
    ensures r.Some? ==> r.value.status != 0 && r.value.error.message != ""
    ensures r.Some? && err.ZodError? ==> r.value.status == 400 && r.value.error.code == "VALIDATION_ERROR"
    ensures r.Some? && err.Raised? ==> r.value.error.code == err.e.code
    ensures r.Some? && err.PlainError? && err.code.None? ==>
      (r.value.error.code == "ERROR" <==> r.value.status != 500)
    ensures r.Some? && !err.Raised? ==> r.value.error.details.None? == !err.ZodError?
  {
    if headersSent then None
    else match err
      case ZodError(issues) =>
        Some(ErrorResponse(400, ErrorBody("VALIDATION_ERROR", "Invalid request", Some(Issues(issues)))))
      case Raised(e) =>
        var status := if e.status == 0 then 500 else e.status;
        var message := if e.message != "" then e.message else if status == 500 then "Internal Server Error" else "Error";
        Some(ErrorResponse(status, ErrorBody(e.code, message, PresentDetails(e.details))))
      case PlainError(st, code, m) =>
        var status := if st.None? || st.value == 0 then 500 else st.value;
        var c := if code.Some? then code.value else if status == 500 then "INTERNAL_ERROR" else "ERROR";
        var message := if m != "" then m else if status == 500 then "Internal Server Error" else "Error";
        Some(ErrorResponse(status, ErrorBody(c, message, None)))
  }

  /** An AppError with a status and a message reaches the client exactly as constructed. */
  lemma AppErrorIsRenderedAsIs(e: AppError)
    requires e.status != 0 && e.message != ""
    ensures HandleError(Raised(e), false)
         == Some(ErrorResponse(e.status, ErrorBody(e.code, e.message, PresentDetails(e.details))))
  {
  }

  /** The wire form of each constructor: its fixed status, its code and message unchanged. */
  lemma ConstructorsOnTheWire(code: string, message: string, details: Option<Detail>)
    requires message != ""
    ensures HandleError(Raised(BadRequest(code, message, details)), false)
         == Some(ErrorResponse(400, ErrorBody(code, message, PresentDetails(details))))
    ensures HandleError(Raised(Unauthorized(code, message)), false) == Some(ErrorResponse(401, ErrorBody(code, message, None)))
    ensures HandleError(Raised(Forbidden(code, message)), false) == Some(ErrorResponse(403, ErrorBody(code, message, None)))
    ensures HandleError(Raised(NotFound(code, message)), false) == Some(ErrorResponse(404, ErrorBody(code, message, None)))
    ensures HandleError(Raised(Conflict(code, message)), false) == Some(ErrorResponse(409, ErrorBody(code, message, None)))
    ensures HandleError(Raised(Internal(message, details)), false)
         == Some(ErrorResponse(500, ErrorBody("INTERNAL_ERROR", message, PresentDetails(details))))
  {
  }

  /**
   * The photo handlers pass `String(e.message)` of an unexpected failure as the details of
   * `internal(...)`, and the handler forwards non-empty details: the internal message
   * reaches the client.
   */
  lemma InternalDetailsReachClient(text: string)
    requires text != ""
    ensures HandleError(Raised(Internal("Internal Server Error", Some(DetailText(text)))), false).value.error.details
         == Some(DetailText(text))
  {
  }

  /** An error without a status is a 500 whatever else it carries. */
  lemma MissingStatusIs500(code: string, message: string, details: Option<Detail>)
    ensures HandleError(Raised(AppError(code, 0, message, details)), false).value.status == 500
    ensures HandleError(PlainError(None, None, message), false).value
         == ErrorResponse(500, ErrorBody("INTERNAL_ERROR", if message != "" then message else "Internal Server Error", None))
  {
  }

  /**
   * A body-parser error (400 for malformed JSON, 413 for a body over the limit) keeps its
   * status and, having no string code, goes out as ERROR.
   */
  lemma StatusErrorKeepsStatus(status: int, message: string)
    requires status != 0 && status != 500
    ensures HandleError(PlainError(Some(status), None, message), false).value
         == ErrorResponse(status, ErrorBody("ERROR", if message != "" then message else "Error", None))
  {
  }

  /** The code ERROR is given exactly to a plain error with no string code and a status other than 500. */
  lemma ErrorCodeIff(st: Option<int>, message: string)
    ensures HandleError(PlainError(st, None, message), false).value.error.code == "ERROR" <==>
      st.Some? && st.value != 0 && st.value != 500
  {
  }
}
