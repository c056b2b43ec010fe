# A verified model of the request path of a small embeddable HTTP server

This project models the core of a small C HTTP server library. The modelled core is the request path
of `httpserver.c` and the `string_ends_with` helper of `httputils.c`, with the sockets taken out:

- `http_server_listen` reads one request. It tokenises the request line in place with `strtok`. GET
  and POST requests with a supported protocol go first to the static directories and then to the
  application's handler. Any other protocol is answered with 400 Bad Request.
- `http_server_handle_static_file` does three things:
  - It walks the static directory list, newest first, and matches each entry's path as a prefix with
    `strncmp`.
  - It rejects a request whose path after the matched mount holds `..`.
  - It maps an empty remainder or `/` to `index.html`, formats the file path into a 512-byte buffer,
    chooses the MIME type from the request path and reads at most 99999 bytes of the file.
- `http_server_send_response` writes a status line, a cache line and then one of two forms:
  - the long form: Content-Length, Content-Type, the origin line, a blank line and the content;
  - the short form: the origin line alone.
- The module state lives in a class `Server.HttpServer`: the initialized flag, the host socket, the
  handler, the static directory list and the receive buffer. `http_server_add_static_directory`,
  `http_server_initialize` and `http_server_shutdown` update that state.

Modules, one per concern of the C code:

| module | file | models |
|---|---|---|
| `CStrings` | c_strings.dfy | NUL-terminated text, `strcmp`, `strncmp`, `strstr`, `snprintf` truncation, `%u` |
| `HttpUtils` | http_utils.dfy | `string_ends_with` |
| `HttpTypes` | http_types.dfy | the `HttpMessage` enum, the message table, the request and response records |
| `ResponseWriter` | response_writer.dfy | `http_server_send_response`, the client socket as a byte stream, a reader for the bytes written |
| `Tokenizer` | tokenizer.dfy | `strtok`, as a function and as an in-place update of the receive buffer |
| `StaticFiles` | static_files.dfy | the mount walk and the decision of `http_server_handle_static_file` |
| `RequestHandling` | request_handling.dfy | what `http_server_listen` writes back, as a function of what `recv` delivered |
| `Server` | server.dfy | the module state and the operations that change it |

The C code has no defined behaviour on some inputs:

- It passes a NULL method or protocol token to `strncmp`.
- A handler's response can have a Content-Type line of more than 1024 bytes, the size of the format
  buffer. `snprintf` then reports more bytes than it wrote, and `send` reads past the buffer.
- The content length can be too large for the `int` cast in the final `send`.

`RequestHandling.Respond` returns `None` on these inputs. It also returns `None` when the Content-Type
line is exactly 1024 bytes long; the C behaviour there is defined (see `ResponseWriter.Sendable` under
"Left out"). `RequestHandling.UndefinedExactly` states which inputs give `None`.
`Server.HttpServer.Listen` requires an outcome other than `None`.

Behaviour of the code worth knowing:

- The `..` guard is active in the code, and it is modelled.
- Protocol tokens that start with `HTTP/1.0` or `HTTP/1.1` are accepted; only other tokens get 400.
- Only GET and POST are served. Any other method gets no response.
- The response is HTTP/1.0 with line-feed line ends and no `Connection` header.
- Every connection is closed after one request; there is no keep-alive and no idle timeout.
- A static file is sent only up to its first NUL byte, because the writer measures the content with
  `strlen`; the Content-Length line counts only those bytes.

## Model

| member | source | states |
|---|---|---|
| `CStrings.CStr` | httpserver.c:167 | the text of a buffer is the prefix before its first NUL (what `strtok`, `strlen` and `%s` read after `message[received] = 0`) |
| `CStrings.Strcmp` | httputils.c:10 | `strcmp` returns 0 exactly when the two strings are equal |
| `CStrings.Strncmp` | httpserver.c:268 | `strncmp` returns 0 exactly when the first n characters of both strings, cut at their terminators, agree |
| `CStrings.StrncmpExact` | httpserver.c:179-180 | with a bound past the literal's length (the `"GET\0"`, 4 and `"POST\0"`, 5 tests) the comparison succeeds only on exact equality |
| `CStrings.StrncmpPrefix` | httpserver.c:268 | with the bound set to the length of p, the comparison succeeds exactly when p is a prefix |
| `CStrings.Contains` | httpserver.c:282 | `strstr` can find only a needle no longer than the text, and always finds a prefix of it |
| `CStrings.Snprintf` | httpserver.c:291-292 | `snprintf` leaves a prefix of the formatted text of length the smaller of its length and the buffer size less one, so all of it when it fits |
| `CStrings.DecimalDigits` | httpserver.c:237 | `%u` writes a non-empty run of decimal digits with no leading zero |
| `CStrings.DecimalRoundTrip` | httpserver.c:237 | reading the digits of `%u` back gives the number printed |
| `HttpUtils.StringEndsWith` | httputils.c:5-11 | `string_ends_with` holds exactly when the suffix fits and the last suffix-length characters equal it |
| `HttpUtils.EndsWithLongerSuffix` | httputils.c:10 | a suffix longer than the string never matches (the length test guards the index) |
| `HttpUtils.EndsWithEmpty` | httputils.c:10 | every string ends with the empty suffix |
| `HttpUtils.EndsWithAppended` | httputils.c:10 | p + s ends with s, whatever p is |
| `HttpUtils.EndsWithItself` | httputils.c:10 | every string ends with itself |
| `ResponseWriter.Sendable` | httpserver.c:237-246 | a response without a body, or with an unknown message, can always be written; when a body is written, the Content-Type line fits the 1024-byte buffer with its terminator, so `snprintf` does not cut it |
| `ResponseWriter.ResponseBytes` | httpserver.c:214-251 | an unknown message value writes nothing, and a known one always writes something |
| `ResponseWriter.ResponseStartsWithStatus` | httpserver.c:224-230 | every response with a known message starts with `HTTP/1.0 <message>` and the cache line |
| `ResponseWriter.WrittenStartsWithStatus` | httpserver.c:224-226 | whatever the writer sends starts with `HTTP/1.0 ` |
| `ResponseWriter.ResponseEndsWithContent` | httpserver.c:233-250 | the long form ends with the content as `strlen` sees it; the short form ends with the origin line |
| `ResponseWriter.SplitLine` | httpserver.c:224 | reader for the line written at httpserver.c:224: splits at the first line feed exactly when there is one, and the pieces put back give the input |
| `ResponseWriter.Expect` | httpserver.c:224-230 | reader for the lines written at httpserver.c:224-230: a fixed text is read off exactly when the input starts with it, and the remainder completes the input |
| `ResponseWriter.ReadLongFormOf` | httpserver.c:233-247 | the long-form header lines read back as the content type and exactly the content; the Content-Length value gives the content's length |
| `ResponseWriter.ReadResponseOf` | httpserver.c:224-230 | the status line and the cache line are read off a response, leaving the headers that follow |
| `ResponseWriter.ReadWriteRoundTrip` | httpserver.c:214-251 | reading the bytes written for a response gives back its status text and, in the long form, its content type and content |
| `ResponseWriter.MessagesAreSingleLines` | httpserver.c:15-20 | no status text in the message table holds a line feed |
| `ResponseWriter.OriginLineIsNotContentLength` | httpserver.c:243-249 | the short form's origin line cannot be taken for a Content-Length line, so the two forms are told apart |
| `ResponseWriter.AppendPieces` | httpserver.c:226-249 | the response bytes are the pieces the successive `send` calls write, in order |
| `ResponseWriter.Client.Send` | httpserver.c:226 | a send appends its bytes to what the client has received and does not close the client |
| `ResponseWriter.Client.Close` | httpserver.c:211 | closing keeps what was sent |
| `ResponseWriter.SendResponse` | httpserver.c:214-251 | the client receives exactly the response bytes, appended to what it already had, and stays open |
| `Tokenizer.LeadingDelims` | httpserver.c:175 | the skipped run lies within the text and stops at a non-delimiter or at the end (`strspn`) |
| `Tokenizer.LeadingDelimsSkipped` | httpserver.c:175 | every skipped character is a delimiter |
| `Tokenizer.TokenLength` | httpserver.c:175 | the token run lies within the text and stops at a delimiter or at the end (`strcspn`) |
| `Tokenizer.TokenLengthClear` | httpserver.c:175 | no character of the token run is a delimiter |
| `Tokenizer.Strtok` | httpserver.c:175-183 | NULL leaves nothing for the next call; a token is non-empty and, with what remains, shorter than the text plus one |
| `Tokenizer.StrtokNoneIff` | httpserver.c:175-183 | `strtok` returns NULL exactly when the remaining text is all delimiters |
| `Tokenizer.StrtokTokenClear` | httpserver.c:175-183 | a returned token holds no delimiter |
| `Tokenizer.StrtokReconstructs` | httpserver.c:175-183 | skipped delimiters, the token, the one overwritten delimiter (if any) and the rest put back together give the text |
| `Tokenizer.TokenLengthOf` | httpserver.c:175 | a delimiter-free run followed by a delimiter or by the end is measured exactly |
| `Tokenizer.StrtokOfToken` | httpserver.c:175-182 | a token, then a delimiter, then the rest: `strtok` returns the token and resumes after the delimiter |
| `Tokenizer.StrtokOfLastToken` | httpserver.c:182-183 | a final delimiter-free token is returned whole, and nothing remains |
| `Tokenizer.StrtokOfFinalToken` | httpserver.c:183 | a token followed by a delimiter or by nothing is what `strtok` returns |
| `Tokenizer.MissingTokenStaysMissing` | httpserver.c:182-183 | after a NULL, every later `strtok(NULL, …)` returns NULL too |
| `Tokenizer.ResumeRest` | httpserver.c:175-183 | the text left for the next call starts where the call resumes, and when it cuts, the character before that point was a delimiter |
| `Tokenizer.StrtokLayout` | httpserver.c:175-183 | the token is the n characters after the skipped delimiters; the call cuts exactly when a delimiter follows them, and resumes after the token, one further when it cuts; the rest is the text from there |
| `Tokenizer.ReadBack` | httpserver.c:175-183 | characters of the text followed by a terminator in the buffer read back from their start as that part of the text |
| `Tokenizer.CutInBuffer` | httpserver.c:175-183 | writing a terminator after the token (when the call cuts) changes only that character; the buffer then reads back the token from its start and the rest from the resume position |
| `Tokenizer.StrtokOnBuffer` | httpserver.c:175-183 | one call on a buffer holding the text leaves the buffer `StrtokEffect` describes: the token `strtok` returns, the rest from the saved position, at most the delimiter before it overwritten |
| `Tokenizer.StrtokInPlace` | httpserver.c:175-183 | on the receive buffer: returns the token and saves the resume position; when the call cuts, the delimiter just before that position becomes a terminator and nothing else changes, otherwise nothing changes; the token reads back from its first character |
| `StaticFiles.FindMount` | httpserver.c:262-277 | the entry chosen is the first, newest first, whose path is a prefix of the request path; None means no entry's path is one |
| `StaticFiles.FirstMatchUnique` | httpserver.c:265-272 | at most one entry is the first match |
| `StaticFiles.NewestMountWins` | httpserver.c:368-373 | a directory added last whose path matches is the one used |
| `StaticFiles.NewMountSkipped` | httpserver.c:368-373 | a directory added last that does not match leaves the choice among the older ones unchanged |
| `StaticFiles.FileName` | httpserver.c:286-289 | an empty remainder or a lone `/` becomes `index.html`; anything else is kept |
| `StaticFiles.FilePath` | httpserver.c:291-292 | the fopen path is a prefix of directory, `/`, name of length the smaller of the full length and 511, so whole when it fits |
| `StaticFiles.FileContent` | httpserver.c:321-335 | the bytes read into the file buffer are the first min(file size, 99999) bytes of the file, so all of it when the file is no larger |
| `StaticFiles.ResolveStatic` | httpserver.c:253-341 | a file is served exactly when some entry is the first match, the remainder holds no `..` and the file opens; the response is then 200, has content and a type, can be written, carries the type for the request path and has at most 99999 bytes of content |
| `StaticFiles.NoMountsNoFile` | httpserver.c:257-260 | with no static directories nothing is served |
| `StaticFiles.ParentPathRejected` | httpserver.c:281-284 | a remainder holding `..` is never served, whatever the file system holds |
| `StaticFiles.ServedFile` | httpserver.c:279-335 | the response's content is the capped content of the file at the path built from the matched entry and the file name |
| `StaticFiles.StaticFileSentUpToNul` | httpserver.c:235-246 | the bytes written for a static hit end with the file's capped content cut at its first NUL byte, since the writer measures it with `strlen` (`RequestHandling.StaticHitSuppressesHandler` makes these bytes the whole answer) |
| `StaticFiles.MountRootIsIndex` | httpserver.c:286-292 | the root of a mount, with or without a slash, opens `<directory>/index.html` |
| `StaticFiles.MimeType` | httpserver.c:307-319 | the type is html, css, javascript or plain, each exactly when its suffix test is the first to succeed |
| `StaticFiles.IndexServedAsPlainText` | httpserver.c:307-319 | a path ending in `/` is sent as text/plain even when index.html is served for it |
| `RequestHandling.ReadRequestLine` | httpserver.c:175-183 | no method token means no path token, and no path token means no protocol token |
| `RequestHandling.ReadsRequestLine` | httpserver.c:175-183 | `method SP path SP protocol` followed by a line end or nothing reads back as those three tokens |
| `RequestHandling.ServedMethod` | httpserver.c:178-180 | the method test accepts exactly `GET` and `POST` |
| `RequestHandling.SupportedProtocol` | httpserver.c:185-187 | the protocol test accepts exactly the tokens that start with `HTTP/1.0` or `HTTP/1.1` |
| `RequestHandling.Dispatch` | httpserver.c:197-205 | a request is undefined only when no directory serves it and the handler's response cannot be written; whatever is written starts with `HTTP/1.0 ` |
| `RequestHandling.Respond` | httpserver.c:155-211 | a failed `recv`, or a peer that closed, gets no bytes; whatever is written starts with `HTTP/1.0 ` |
| `RequestHandling.OnlyGetAndPostAnswered` | httpserver.c:178-206 | only a GET or POST request gets any bytes back |
| `RequestHandling.BadRequestBytes` | httpserver.c:189-194 | the 400 response has no content: status, cache and origin lines only |
| `RequestHandling.BadProtocolRejected` | httpserver.c:185-195 | a GET or POST with an unsupported protocol gets the 400 response, whatever the mounts and the handler |
| `RequestHandling.StaticHitSuppressesHandler` | httpserver.c:197 | a request served statically gets the file response, and the handler is not consulted |
| `RequestHandling.HandlerAnswersTheRest` | httpserver.c:197-204 | a request no directory serves gets the handler's response, written as the writer writes it |
| `RequestHandling.NoHandlerNoAnswer` | httpserver.c:197-205 | without a handler, a request no directory serves gets no bytes |
| `RequestHandling.UndefinedExactly` | httpserver.c:175-205 | `Respond` gives `None` exactly when there is no method token, a GET or POST has no protocol token, or the handler's response is not `Sendable` (its Content-Type line, with a terminator, does not fit the 1024-byte buffer, or its content length does not fit an `int`) |
| `RequestHandling.RootRequestWithoutHandler` | httpserver.c:175-205 | `GET / HTTP/1.1` with no directories and no handler gets no bytes |
| `RequestHandling.MissingProtocolUndefined` | httpserver.c:182-187 | a GET or POST line that stops after the path has no protocol token and is undefined |
| `RequestHandling.BlankRequestUndefined` | httpserver.c:175-179 | a request made of blanks and line feeds has no method token and is undefined |
| `Server.HttpServer.constructor` | httpserver.c:8-30 | the state before any call: not initialized, no socket, no handler, no directories |
| `Server.HttpServer.AddStaticDirectory` | httpserver.c:343-374 | with both strings and the allocations, the new entry goes to the head of the list; otherwise nothing changes; the rest of the state is kept |
| `Server.HttpServer.Shutdown` | httpserver.c:95-123 | when initialized: socket reset, list emptied, flag cleared; otherwise nothing changes; the handler is kept |
| `Server.HttpServer.Initialize` | httpserver.c:37-93 | success exactly when the socket is listening; it then stores the socket and the handler; on failure the full shutdown runs and the directories are dropped |
| `Server.HttpServer.FindDirectory` | httpserver.c:262-272 | the list walk returns the entry `FindMount` specifies |
| `Server.HttpServer.HandleStaticFile` | httpserver.c:253-341 | returns true exactly when `ResolveStatic` serves the path, and only then sends its response |
| `Server.HttpServer.StoreRequest` | httpserver.c:155-167 | the received bytes and their terminator are in the buffer, which reads as their text; the bytes after the terminator are untouched |
| `Server.HttpServer.ReadMethod` | httpserver.c:175 | the first `strtok` returns the method token, leaves the rest of the text at the saved position, and leaves the buffer as the stored request with at most the delimiter after the token replaced by a terminator (`StrtokEffect`) |
| `Server.HttpServer.ReadPathAndProtocol` | httpserver.c:182-183 | the next two calls return the path and protocol tokens of that rest, each leaving the buffer as `StrtokEffect` states for its call |
| `Server.HttpServer.AnswerRequest` | httpserver.c:185-205 | the client receives 400 or the dispatched response, as `Dispatch` says |
| `Server.HttpServer.AnswerReceived` | httpserver.c:167-206 | the client receives what `Respond` says for the received text |
| `Server.HttpServer.Listen` | httpserver.c:125-212 | an uninitialized server does nothing; otherwise the client gets what `Respond` says and is closed |

## Left out

- Sockets are not modelled: `select`, `accept`, the non-blocking mode, `getnameinfo`, `recv` and
  `close`. `Listen` takes the accepted client (null when `select` or `accept` gives none) and the
  outcome of `recv` as parameters.
- `Initialize` does not model the socket setup itself: `getaddrinfo`, the bind loop, `listen`,
  `setsockopt`, the service string and WinSock. Their outcome is a parameter.
- `send` return values are ignored, as the C code ignores them. Partial sends are not modelled.
- File I/O is a map from the path given to `fopen` to the file's bytes. A failed open is a missing key.
  `fseek`, `ftell` and a short `fread` are not modelled.
- Memory is not modelled: the copies made by `strcpy` and the `free` loop in shutdown. `AddStaticDirectory`
  models a failed malloc as no change; the blocks that did get allocated leak in the C code.
- The hostname field (`httpserver.c:176`) is not modelled. `httpserver.h` declares no such field in the
  request record.
- `ResponseWriter.ResponseBytes`: negative message values are treated as unknown. The C test catches
  only values at or above the count, so the model assumes the enum's underlying type is unsigned.
- `ResponseWriter.Sendable`: a Content-Type line of exactly 1024 bytes (a 1009-character type) counts
  as not sendable, so `Respond` gives `None` for it. The C behaviour there is defined: `snprintf`
  returns 1024 and `send` writes the 1023 characters that fit and the terminator in place of the line
  feed. The model does not write out that cut line.
- `Server.HttpServer.AnswerReceived`: the contract does not state the receive buffer contents left
  behind; they are the effects that `ReadMethod` and `ReadPathAndProtocol` state, one after the other.
  The bytes left behind are never read, because the next `StoreRequest` writes a terminator and every
  read stops there.
- `Server.HttpServer.Listen`: the contract does not state the receive buffer contents left behind
  after tokenising, for the same reason as `AnswerReceived`.
- `Tokenizer.LeadingDelims` and `Tokenizer.TokenLength` model the `strspn`/`strcspn` steps inside
  `strtok` as functions, not as the libc loops.
- The `%u` cast of the content length to 32 bits and the `int` cast in the final `send` are not written
  out. `Sendable` keeps the length within `int`, where neither cast changes it.
- `main.c`, `httpsocket.c`, `string_get_file_extension` and `string_parse_header_text` are not part of
  this model.
