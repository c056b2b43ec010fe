/** The request and response records of httpserver.h and the status message table. */
module HttpTypes {
  import opened Wrappers
  import opened CStrings

  /** The values of enum HttpMessage. */
  const Http200Ok: int := 0
  const Http400BadRequest: int := 1
  const Http401Unauthorized: int := 2
  const Http404NotFound: int := 3
  const NumMessages: int := 4

  /** The status text written for each message value, in enum order. */
  const Messages: seq<CString> := ["200 OK", "400 Bad Request", "401 Unauthorized", "404 Not Found"]

  /** The three tokens of a request line as the server hands them on. */
  datatype Request = Request(httpMethod: CString, path: CString, protocol: CString)

  /**
   * A response as a handler returns it. `message` is the enum value (any
   * number a handler puts there); `content` and `contentType` are nullable
   * pointers to NUL-terminated text, so only what precedes a NUL is used.
   */
  datatype Response = Response(message: int, content: Option<string>, contentType: Option<string>)
}
