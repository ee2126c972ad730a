/** `getCustomErrorMessage` and the four error handlers (backend/flaskr/__init__.py:274-311),
    and how Flask turns a view's outcome into a reply. */
module Errors {
  import opened Records

  /** `error.description["message"]`: a dictionary gives its "message" entry; werkzeug's
      standard description is a string, indexing it raises TypeError and the fallback is
      used. A dictionary without "message" raises KeyError, which is not caught: `None`. */
  function CustomErrorMessage(d: Description, fallback: string): Option<string>
  {
    match d
    case Standard => Some(fallback)
    case Fields(entries) => if "message" in entries then Some(entries["message"]) else None
  }

  /** The fallback message of each registered handler; `None` for a code with no handler. */
  function Fallback(code: int): Option<string>
  {
    if code == 400 then Some("bad request")
    else if code == 404 then Some("resource not found")
    else if code == 405 then Some("method not allowed")
    else if code == 422 then Some("unprocessable")
    else None
  }

  /** The JSON body an error handler returns, sent with status `error`. */
  datatype ErrorBody = ErrorBody(success: bool, error: int, message: string)

  /** The handler registered for `code` applied to an aborted request; `None` when no
      handler is registered or the handler itself raises. */
  function HandleError(code: int, d: Description): Option<ErrorBody>
  {
    match Fallback(code)
    case None => None
    case Some(fallback) =>
      match CustomErrorMessage(d, fallback)
      case None => None
      case Some(m) => Some(ErrorBody(false, code, m))
  }

  /** What the client receives: the view's body with 200, a handler's body with its code,
      werkzeug's default page for a code no handler is registered for, or Flask's own 500
      page (a view that returns nothing, a handler that raises). */
  datatype Reply =
    | Success(body: Body)
    | Failure(status: int, error: ErrorBody)
    | DefaultPage(status: int)
    | ServerError

  /** The codes werkzeug has an exception class for; `abort` with any other code raises
      LookupError, which no handler catches. */
  predicate WerkzeugCode(code: int)
  {
    code in {400, 401, 403, 404, 405, 406, 408, 409, 410, 411, 412, 413, 414, 415, 416, 417,
             418, 421, 422, 423, 424, 428, 429, 431, 451, 500, 501, 502, 503, 504, 505}
  }

  function Respond(r: Response): Reply
  {
    match r
    case Ok(body) => Success(body)
    case Abort(code, d) =>
      if Fallback(code).None? then (if WerkzeugCode(code) then DefaultPage(code) else ServerError)
      else
        (match HandleError(code, d)
         case Some(e) => Failure(code, e)
         case None => ServerError)
    case NoResponse => ServerError
  }

  /** Each of the four handlers answers with `success: false`, its own code, and the
      message the abort supplied in a dictionary, or its fallback when the abort gave none. */
  lemma HandlerMessage(code: int, d: Description)
    requires code in {400, 404, 405, 422}
    requires d.Fields? ==> "message" in d.entries
    ensures HandleError(code, d).Some?
    ensures HandleError(code, d).value.success == false
    ensures HandleError(code, d).value.error == code
    ensures d.Fields? ==> HandleError(code, d).value.message == d.entries["message"]
    ensures d.Standard? ==>
              HandleError(code, d).value.message ==
                (if code == 400 then "bad request"
                 else if code == 404 then "resource not found"
                 else if code == 405 then "method not allowed"
                 else "unprocessable")
  {
  }

  /** An abort with a dictionary that lacks "message" makes its handler raise KeyError,
      which ends in Flask's 500 page. */
  lemma UnhandledAbort(code: int, d: Description)
    requires code in {400, 404, 405, 422}
    requires d.Fields? && "message" !in d.entries
    ensures Respond(Abort(code, d)) == ServerError
  {
  }

  /** An abort whose code werkzeug defines but none of the four handlers is registered for
      reaches the client with that code and werkzeug's default page, whatever its description. */
  lemma NoHandlerDefaultPage(code: int, d: Description)
    requires code !in {400, 404, 405, 422}
    requires WerkzeugCode(code)
    ensures Respond(Abort(code, d)) == DefaultPage(code)
  {
  }

  /** An abort with a code werkzeug has no exception for raises LookupError instead, which
      ends in Flask's 500 page. */
  lemma UnknownCodeServerError(code: int, d: Description)
    requires !WerkzeugCode(code)
    ensures Respond(Abort(code, d)) == ServerError
  {
  }

  /** A bare `abort(404)` reaches the client as "resource not found", never as
      "Page not found" (backend/test_flaskr.py:81 expects the latter). */
  lemma BareNotFoundMessage()
    ensures Respond(Abort(404, Standard)) == Failure(404, ErrorBody(false, 404, "resource not found"))
    ensures Respond(Abort(404, Standard)).error.message != "Page not found"
  {
  }
}
