/** What a handler answers: a status code and either `{ message }` or a JSON value. */
module Http {

  const Success := 200
  const Created := 201
  const BadRequest := 400
  const Unauthorized := 401
  const Forbidden := 403
  const NotFound := 404
  const InternalError := 500

  datatype Body<T> = Message(text: string) | Json(value: T)

  datatype Reply<T> = Reply(status: int, body: Body<T>)

  /** `res.status(status).json({ message: text })`. */
  function Fail<T>(status: int, text: string): (r: Reply<T>)
    ensures r.status == status && r.body == Message(text)
  {
    Reply(status, Message(text))
  }
}
