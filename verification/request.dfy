/**
 * The request every service in the pipeline receives by value and updates in
 * place, and the outcome of one forwarding attempt.
 */
module Requests {
  import opened Wrappers
  import opened Headers
  import opened Uris

  /** An HTTP status code: the http crate admits 100 through 999. */
  type StatusCode = s: int | 100 <= s <= 999 witness 200

  const UNAUTHORIZED: StatusCode := 401
  const TOO_MANY_REQUESTS: StatusCode := 429

  /** `StatusCode::is_success`: the 2xx range. */
  predicate IsSuccessStatus(s: StatusCode)
  {
    200 <= s <= 299
  }

  /** What an attempt's future resolves to: a response, or a transport error. */
  datatype AttemptResult = Response(status: StatusCode) | TransportError

  /** A response that did not come back with a 2xx status counts as failure, as does a transport error. */
  predicate IsSuccess(r: AttemptResult)
  {
    r.Response? && IsSuccessStatus(r.status)
  }

  /** A buffered request body (the buffering stage has already drained the stream). */
  type Body = seq<bv8>

  class Request {
    var uri: Uri
    /** The request method, e.g. "GET". */
    var verb: string
    var headers: HeaderMap
    var body: Body

    constructor (uri: Uri, verb: string, headers: HeaderMap, body: Body)
      ensures this.uri == uri && this.verb == verb && this.headers == headers && this.body == body
    {
      this.uri := uri;
      this.verb := verb;
      this.headers := headers;
      this.body := body;
    }

    /** `headers_mut().remove(name)`: drops every value under `name` and returns the first. */
    method RemoveHeader(name: HeaderName) returns (v: Option<HeaderValue>)
      modifies this`headers
      ensures v == Get(old(headers), name)
      ensures headers == Without(old(headers), name)
    {
      v := Get(headers, name);
      headers := Without(headers, name);
    }

    /** `headers_mut().insert(name, v)`: `name` holds exactly `v` afterwards. */
    method InsertHeader(name: HeaderName, v: HeaderValue)
      modifies this`headers
      ensures headers == Inserted(old(headers), name, v)
    {
      headers := Inserted(headers, name, v);
    }
  }
}
