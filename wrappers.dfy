/** Option and Result values, and the service's error kinds. */
module Wrappers {

  datatype Option<+T> = None | Some(value: T)

  datatype Result<+T, +E> = Success(value: T) | Failure(error: E)

  /** The HTTP errors the services raise, tagged by kind; `detail` is the message the caller sees. */
  datatype Error =
    | BadRequest(detail: string)           // 400
    | Unauthorized(detail: string)         // 401
    | Forbidden(detail: string)            // 403
    | NotFound(detail: string)             // 404
    | Gone(detail: string)                 // 410
    | Unprocessable(details: seq<string>)  // 422, one message per failing schema field
    | Internal(detail: string)             // 500

  function StatusCode(e: Error): (code: int)
    ensures 400 <= code < 600
    ensures code >= 500 <==> e.Internal?
  {
    match e
    case BadRequest(_) => 400
    case Unauthorized(_) => 401
    case Forbidden(_) => 403
    case NotFound(_) => 404
    case Gone(_) => 410
    case Unprocessable(_) => 422
    case Internal(_) => 500
  }
}
