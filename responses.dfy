/** The HTTP responses the api handlers send, reduced to status and body. */
module Responses {

  datatype Body =
    | JsonError(error: string)   // {"error": ...}
    | JsonToken(token: string)   // {"token": ...}
    | PlainText(text: string)    // a plain-text body
    | NoBody                     // the handler returned nil without writing

  datatype Response = Response(status: int, body: Body)

  const BadRequest: int := 400
  const Unauthorized: int := 401
  const OK: int := 200
}
