/** Optional values and the outcome of a request handler. */
module Wrappers {

  datatype Option<T> = None | Some(value: T)

  /** What a route handler can fail with, as FastAPI turns it into a response. */
  datatype Failure =
    | HttpException(statusCode: int, detail: string)  // raised by the handler itself
    | RequestValidationError                          // a query parameter FastAPI refuses before the handler runs

  /** The HTTP status of the response a failure becomes. */
  function StatusCode(f: Failure): int
  {
    match f
    case HttpException(code, _) => code
    case RequestValidationError => 422
  }

  /** The status of a successful `DELETE`, which has no body. */
  const NO_CONTENT := 204

  /** A handler either returns a value (status 200, or the code it names) or fails. */
  datatype Result<T> = Ok(value: T) | Err(failure: Failure)

  /** The status of the response for an outcome whose success answers 200. */
  function Status<T>(r: Result<T>): int
  {
    match r
    case Ok(_) => 200
    case Err(f) => StatusCode(f)
  }
}
