/** `AppError`, its Display text, and the HTTP response every handler error becomes. */
module Errors {

  /** The handler error type; `Db` carries the driver's message, `Anyhow` any wrapped error text. */
  datatype AppError =
    | Db(detail: string)
    | NotFound
    | Unauthorized
    | Forbidden
    | BadRequest(message: string)
    | Conflict(message: string)
    | Internal(message: string)
    | Anyhow(message: string)

  /** The `#[error(...)]` Display strings. */
  function ErrorText(e: AppError): string {
    match e
    case Db(d) => "database error: " + d
    case NotFound => "not found"
    case Unauthorized => "unauthorized"
    case Forbidden => "forbidden"
    case BadRequest(m) => "bad request: " + m
    case Conflict(m) => "conflict: " + m
    case Internal(m) => "internal error: " + m
    case Anyhow(m) => m
  }

  /** The JSON body `{"error": message}`. */
  datatype ErrorBody = ErrorBody(error: string)

  datatype HttpResponse = HttpResponse(status: int, body: ErrorBody)

  /** `IntoResponse for AppError`. */
  function IntoResponse(e: AppError): (r: HttpResponse)
    ensures r.status in {400, 401, 403, 404, 409, 500}
    ensures r.status == 500 <==> (e.Db? || e.Internal? || e.Anyhow?)
    ensures (e.NotFound? || e.Unauthorized? || e.Forbidden?) ==> r.body.error == ErrorText(e)
    ensures (e.BadRequest? || e.Conflict? || e.Internal? || e.Anyhow?) ==> r.body.error == e.message
    ensures e.Db? ==> r.body.error == "database error"
  {
    match e
    case Db(_) => HttpResponse(500, ErrorBody("database error"))
    case NotFound => HttpResponse(404, ErrorBody(ErrorText(e)))
    case Unauthorized => HttpResponse(401, ErrorBody(ErrorText(e)))
    case Forbidden => HttpResponse(403, ErrorBody(ErrorText(e)))
    case BadRequest(m) => HttpResponse(400, ErrorBody(m))
    case Conflict(m) => HttpResponse(409, ErrorBody(m))
    case Internal(m) => HttpResponse(500, ErrorBody(m))
    case Anyhow(m) => HttpResponse(500, ErrorBody(ErrorText(e)))
  }

  /** No database error detail reaches the client: every `Db` error gives the same response. */
  lemma DbDetailHidden(d1: string, d2: string)
    ensures IntoResponse(Db(d1)) == IntoResponse(Db(d2))
  {
  }

  /** Each status code identifies the error kind, except 500 which three kinds share. */
  lemma StatusIdentifiesKind(e: AppError)
    ensures IntoResponse(e).status == 404 <==> e.NotFound?
    ensures IntoResponse(e).status == 401 <==> e.Unauthorized?
    ensures IntoResponse(e).status == 403 <==> e.Forbidden?
    ensures IntoResponse(e).status == 400 <==> e.BadRequest?
    ensures IntoResponse(e).status == 409 <==> e.Conflict?
  {
  }

  /** The extractor's rejection (`AuthRejection`) answers exactly like `AppError::Unauthorized`. */
  function AuthRejectionResponse(): (r: HttpResponse)
    ensures r == IntoResponse(Unauthorized)
  {
    HttpResponse(401, ErrorBody("unauthorized"))
  }
}
