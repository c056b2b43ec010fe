/**
 * What http_server_listen writes back for one accepted connection, as a
 * function of what recv delivered, the mount table, the file system and the
 * handler. None stands for the inputs on which the C code has no defined
 * behaviour (it passes a NULL token to strncmp, or formats a Content-Type
 * line longer than its buffer); no response is invented for them.
 */
module RequestHandling {
  import opened Wrappers
  import opened CStrings
  import opened HttpTypes
  import opened ResponseWriter
  import opened StaticFiles
  import opened Tokenizer

  /** The size of the receive buffer; recv is asked for one byte less. */
  const MessageBufferSize: nat := 100000

  /** The outcome of the single recv on the accepted socket. */
  datatype RecvOutcome =
    | RecvFailed                 // recv returned a negative value
    | PeerClosed                 // recv returned 0
    | Received(data: string)     // the bytes recv stored, at least one

  predicate ValidRecv(recv: RecvOutcome) {
    recv.Received? ==> 0 < |recv.data| < MessageBufferSize
  }

  /** The application's request handler. */
  type Handler = Request -> Response

  /** The tokens of a request line as the three strtok calls return them (None for NULL). */
  datatype RequestLine = RequestLine(httpMethod: Option<CString>, path: Option<CString>, protocol: Option<CString>)

  /** The method, path and protocol tokens of the received text. */
  function ReadRequestLine(text: CString): (line: RequestLine)
    ensures line.httpMethod.None? ==> line.path.None?
    ensures line.path.None? ==> line.protocol.None?
  {
    var m := Strtok(text, MethodDelims);
    var p := Strtok(m.rest, PathDelims);
    var q := Strtok(p.rest, ProtocolDelims);
    if m.token.None? then MissingTokenStaysMissing(text, MethodDelims, PathDelims); RequestLine(m.token, p.token, q.token)
    else if p.token.None? then MissingTokenStaysMissing(m.rest, PathDelims, ProtocolDelims); RequestLine(m.token, p.token, q.token)
    else RequestLine(m.token, p.token, q.token)
  }

  /** A token holds none of the characters of a delimiter set. */
  predicate Clear(tok: CString, d: set<char>) {
    tok != [] && forall i :: 0 <= i < |tok| ==> tok[i] !in d
  }

  /**
   * A request line written as method, space, path, space, protocol, then a
   * line end or nothing, reads back as those three tokens.
   */
  lemma ReadsRequestLine(m: CString, p: CString, q: CString, rest: CString)
    requires Clear(m, MethodDelims) && Clear(p, PathDelims) && Clear(q, ProtocolDelims)
    requires rest == [] || rest[0] in ProtocolDelims
    ensures NUL !in m + " " + p + " " + q + rest
    ensures ReadRequestLine(m + " " + p + " " + q + rest) == RequestLine(Some(m), Some(p), Some(q))
  {
    var tail := p + " " + q + rest;
    var text := m + " " + p + " " + q + rest;
    assert text == m + [' '] + tail;
    StrtokOfToken(m, ' ', tail, MethodDelims);
    assert tail == p + [' '] + (q + rest);
    StrtokOfToken(p, ' ', q + rest, PathDelims);
    StrtokOfFinalToken(q, rest, ProtocolDelims);
  }

  /**
   * The method test: strncmp against "GET\0" over 4 bytes or "POST\0" over 5.
   * The bounds include the literals' terminators, so only GET and POST pass.
   */
  predicate ServedMethod(token: CString)
    ensures ServedMethod(token) <==> token == "GET" || token == "POST"
  {
    StrncmpExact(token, "GET", 4);
    StrncmpExact(token, "POST", 5);
    Strncmp(token, "GET", 4) == 0 || Strncmp(token, "POST", 5) == 0
  }

  /**
   * The protocol test: strncmp against "HTTP/1.0" or "HTTP/1.1" over 8 bytes,
   * which accepts any token that starts with one of them.
   */
  predicate SupportedProtocol(protocol: CString)
    ensures SupportedProtocol(protocol) <==> "HTTP/1.0" <= protocol || "HTTP/1.1" <= protocol
  {
    StrncmpPrefix(protocol, "HTTP/1.0");
    StrncmpPrefix(protocol, "HTTP/1.1");
    Strncmp(protocol, "HTTP/1.0", 8) == 0 || Strncmp(protocol, "HTTP/1.1", 8) == 0
  }

  /** The response to a protocol the server does not speak. */
  const BadRequest: Response := Response(Http400BadRequest, None, None)

  /**
   * A well-formed request: the static directories first, then the handler, if
   * any. The outcome is undefined only when the handler's response cannot be
   * written, and whatever is written starts with the status line prefix.
   */
  function Dispatch(request: Request, mounts: seq<Mount>, fs: FileSystem, handler: Option<Handler>): (r: Option<string>)
    ensures r.None? <==>
              ResolveStatic(mounts, fs, request.path).None? && handler.Some? && !Sendable(handler.value(request))
    ensures r.Some? && r.value != [] ==> StatusPrefix <= r.value
  {
    match ResolveStatic(mounts, fs, request.path)
    case Some(response) =>
      WrittenStartsWithStatus(response);
      Some(ResponseBytes(response))
    case None =>
      match handler
      case None => Some([])
      case Some(h) =>
        var response := h(request);
        if Sendable(response) then
          WrittenStartsWithStatus(response);
          Some(ResponseBytes(response))
        else None
  }

  /**
   * Everything written to the client before it is closed: nothing when recv
   * fails or the peer has closed; otherwise the request line is read from the
   * text up to the first NUL and answered.
   */
  function Respond(recv: RecvOutcome, mounts: seq<Mount>, fs: FileSystem, handler: Option<Handler>): (r: Option<string>)
    ensures !recv.Received? ==> r == Some([])
    ensures r.Some? && r.value != [] ==> StatusPrefix <= r.value
  {
    match recv
    case RecvFailed => Some([])
    case PeerClosed => Some([])
    case Received(data) =>
      var line := ReadRequestLine(CStr(data));
      if line.httpMethod.None? then None
      else if !ServedMethod(line.httpMethod.value) then Some([])
      else if line.path.None? || line.protocol.None? then None
      else if !SupportedProtocol(line.protocol.value) then
        WrittenStartsWithStatus(BadRequest);
        Some(ResponseBytes(BadRequest))
      else Dispatch(Request(line.httpMethod.value, line.path.value, line.protocol.value), mounts, fs, handler)
  }

  /** Only a GET or POST request can get any output. */
  lemma OnlyGetAndPostAnswered(data: string, mounts: seq<Mount>, fs: FileSystem, handler: Option<Handler>)
    requires Respond(Received(data), mounts, fs, handler).Some?
    requires Respond(Received(data), mounts, fs, handler).value != []
    ensures var m := ReadRequestLine(CStr(data)).httpMethod;
            m.Some? && (m.value == "GET" || m.value == "POST")
  {
  }

  /** The 400 response has no content: status line, cache line and origin line only. */
  lemma BadRequestBytes()
    ensures Sendable(BadRequest)
    ensures ResponseBytes(BadRequest) == StatusLine(Http400BadRequest) + CacheLine() + OriginLine()
  {
  }

  /**
   * A GET or POST whose protocol token starts with neither HTTP/1.0 nor
   * HTTP/1.1 is answered 400 Bad Request without content, whatever the mounts
   * and the handler.
   */
  lemma BadProtocolRejected(data: string, mounts: seq<Mount>, fs: FileSystem, handler: Option<Handler>)
    requires var line := ReadRequestLine(CStr(data));
             line.httpMethod.Some? && ServedMethod(line.httpMethod.value)
             && line.protocol.Some? && !SupportedProtocol(line.protocol.value)
    ensures Respond(Received(data), mounts, fs, handler)
            == Some(StatusLine(Http400BadRequest) + CacheLine() + OriginLine())
  {
    BadRequestBytes();
  }

  /** The request a well-formed GET or POST request line is handed on as. */
  function RequestOf(data: string): Option<Request> {
    var line := ReadRequestLine(CStr(data));
    if line.httpMethod.Some? && line.path.Some? && line.protocol.Some?
       && ServedMethod(line.httpMethod.value) && SupportedProtocol(line.protocol.value)
    then Some(Request(line.httpMethod.value, line.path.value, line.protocol.value))
    else None
  }

  /** A request a static directory serves never reaches the handler. */
  lemma StaticHitSuppressesHandler(data: string, mounts: seq<Mount>, fs: FileSystem, handler: Option<Handler>)
    requires RequestOf(data).Some?
    requires ResolveStatic(mounts, fs, RequestOf(data).value.path).Some?
    ensures Respond(Received(data), mounts, fs, handler)
            == Some(ResponseBytes(ResolveStatic(mounts, fs, RequestOf(data).value.path).value))
  {
  }

  /** A request no static directory serves goes to the handler, whose response is written as it is. */
  lemma HandlerAnswersTheRest(data: string, mounts: seq<Mount>, fs: FileSystem, h: Handler)
    requires RequestOf(data).Some?
    requires ResolveStatic(mounts, fs, RequestOf(data).value.path).None?
    requires Sendable(h(RequestOf(data).value))
    ensures Respond(Received(data), mounts, fs, Some(h)) == Some(ResponseBytes(h(RequestOf(data).value)))
  {
  }

  /** Without a handler, a request no static directory serves gets nothing back. */
  lemma NoHandlerNoAnswer(data: string, mounts: seq<Mount>, fs: FileSystem)
    requires RequestOf(data).Some?
    requires ResolveStatic(mounts, fs, RequestOf(data).value.path).None?
    ensures Respond(Received(data), mounts, fs, None) == Some([])
  {
  }

  /**
   * Exactly the inputs with no defined behaviour: no method token at all, a
   * GET or POST without a protocol token, or a handler response the writer
   * cannot format.
   */
  lemma UndefinedExactly(data: string, mounts: seq<Mount>, fs: FileSystem, handler: Option<Handler>)
    ensures var line := ReadRequestLine(CStr(data));
            Respond(Received(data), mounts, fs, handler).None? <==>
              line.httpMethod.None?
              || (ServedMethod(line.httpMethod.value) && line.protocol.None?)
              || (RequestOf(data).Some?
                  && ResolveStatic(mounts, fs, RequestOf(data).value.path).None?
                  && handler.Some? && !Sendable(handler.value(RequestOf(data).value)))
  {
    var line := ReadRequestLine(CStr(data));
    if line.httpMethod.Some? && ServedMethod(line.httpMethod.value) && line.protocol.Some? {
      var request := Request(line.httpMethod.value, line.path.value, line.protocol.value);
      assert SupportedProtocol(request.protocol) ==> RequestOf(data) == Some(request);
      assert !SupportedProtocol(request.protocol) ==> RequestOf(data).None?;
    }
  }

  /** A request for / over HTTP/1.1 with no mounts and no handler is read but not answered. */
  lemma RootRequestWithoutHandler(fs: FileSystem)
    ensures Respond(Received("GET" + " " + "/" + " " + "HTTP/1.1" + "\r\n"), [], fs, None) == Some([])
  {
    var data := "GET" + " " + "/" + " " + "HTTP/1.1" + "\r\n";
    ReadsRequestLine("GET", "/", "HTTP/1.1", "\r\n");
    CStrOfCString(data);
    assert RequestOf(data) == Some(Request("GET", "/", "HTTP/1.1"));
    NoHandlerNoAnswer(data, [], fs);
  }

  /**
   * A GET or POST request line cut short after the path (which may end in a
   * line feed, since the path call does not split there) has no protocol
   * token: undefined.
   */
  lemma MissingProtocolUndefined(m: CString, p: CString, mounts: seq<Mount>, fs: FileSystem, handler: Option<Handler>)
    requires Clear(m, MethodDelims) && ServedMethod(m) && Clear(p, PathDelims)
    ensures NUL !in m + " " + p
    ensures ReadRequestLine(m + " " + p) == RequestLine(Some(m), Some(p), None)
    ensures Respond(Received(m + " " + p), mounts, fs, handler) == None
  {
    var text := m + " " + p;
    assert text == m + [' '] + p;
    StrtokOfToken(m, ' ', p, MethodDelims);
    StrtokOfLastToken(p, PathDelims);
    CStrOfCString(text);
  }

  /** Text made only of blanks and line feeds has no method token: undefined. */
  lemma BlankRequestUndefined(mounts: seq<Mount>, fs: FileSystem, handler: Option<Handler>)
    ensures Respond(Received(" \n"), mounts, fs, handler) == None
  {
    CStrOfCString(" \n");
    StrtokNoneIff(" \n", MethodDelims);
  }
}
