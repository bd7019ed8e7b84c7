/** The error values of the rate limiter and the small result types the
    rest of the model returns. In the Go program an operation that can fail
    returns an `error` that is either nil or one of two constant
    `rateLimitError` strings. */
module Errors {

  /** The two constant errors of the rate limiter. */
  datatype RateLimitError = TooManyRequests | ClientMapExists

  /** The text a `rateLimitError` carries; `Error()` returns it unchanged. */
  function Message(e: RateLimitError): (s: string)
    ensures |s| > 0
  {
    match e
    case TooManyRequests => "Too Many Requests"
    case ClientMapExists => "Client rate limite map already instantiated"
  }

  /** A Go `error` result: nil (Pass) or a rate limiter error (Fail). */
  datatype Outcome = Pass | Fail(error: RateLimitError)

  /** A value that may be absent, as Go's comma-ok map lookup and nil map. */
  datatype Option<T> = None | Some(value: T)
}
