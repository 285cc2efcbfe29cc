/** What a handler sends back: a value, or an HTTP error reply `{ error: <message> }`. */
module Http {

  /** The four error statuses the server sends. */
  datatype Status = BadRequest | Unauthorized | Forbidden | NotFound

  /**
   * `Reply` is a status with its `error` message. `Unhandled` is a handler whose
   * promise rejects (a store constraint violation, a library call that throws)
   * before anything is written. No handler catches it; what the client then
   * sees depends on the Express and Node versions, which the model leaves open.
   */
  datatype Error = Reply(status: Status, message: string) | Unhandled(cause: string)

  datatype Response<+T> = Ok(value: T) | Err(error: Error)

  /** The result of a middleware: go on to the next handler, or stop with an error. */
  datatype Outcome = Pass | Fail(error: Error)
}
