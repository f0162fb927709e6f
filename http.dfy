/** What a request carries past the middlewares and what a handler writes back. */
module Http {
  import opened Common

  /** `req.user` as `authenticate` sets it, from the token payload. */
  datatype Identity = Identity(id: Id, role: Role, sessionId: Id)

  /** One entry of a 400 validation reply; `field` is undefined when the error names none. */
  datatype FieldMessage = FieldMessage(field: Option<string>, message: string)

  /** The JSON bodies written on the error paths. */
  datatype ErrorBody =
    | Message(error: string)
    | Forbidden(error: string, required: seq<Role>, current: Role)
    | Invalid(errors: seq<FieldMessage>)

  /** A written response: a JSON body, an empty body (`send()`), or an error body. */
  datatype Response<+T> =
    | Json(status: int, body: T)
    | Empty(status: int)
    | Problem(status: int, problem: ErrorBody)

  /** A middleware either calls `next()` or ends the request with a response. */
  datatype Step = Next | Stop(status: int, body: ErrorBody)

  /** An authentication middleware either passes on with `req.user` set
      (None for an anonymous request) or ends the request. */
  datatype Gate = Admit(user: Option<Identity>) | Refuse(status: int, body: ErrorBody)
}
