/** Values that cross the HTTP boundary of the backend: request body fields and route replies. */
module Http {

  /** The id of a user document; a task's owner is one. */
  type UserId = nat

  datatype Option<+T> = None | Some(value: T)

  /** A JSON scalar as it can arrive in a request body field. A field the client left out
      (JavaScript `undefined`) is `None` of an `Option<Json>`; `JNull` is an explicit `null`. */
  datatype Json = JNull | JBool(b: bool) | JNum(n: int) | JStr(s: string)

  /** One entry of the `errors` list of a 400 reply: `{field, message}`. */
  datatype FieldError = FieldError(field: string, message: string)

  /** What a route handler answers: a 200 reply with a body, a 400 reply with a field
      error list, or a 404 reply with a `{message}` body. */
  datatype Response<T> = Ok(value: T) | Errors(errors: seq<FieldError>) | NotFound(message: string)
}
