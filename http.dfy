/** The JSON responses the backend handlers send: a status code and a body. */
module Http {
  import opened Crypto

  datatype Body =
    | Message(message: string)
    | Error(error: string)
    | Auth(message: string, authToken: Token)
    | AdminAuth(message: string, authToken1: Token)

  datatype Response = Response(status: nat, body: Body)

  function Ok(message: string): Response {
    Response(200, Message(message))
  }

  function BadRequest(error: string): Response {
    Response(400, Error(error))
  }
}
