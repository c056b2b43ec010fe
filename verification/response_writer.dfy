/**
 * http_server_send_response: the bytes written for a response, the client
 * socket they are written to, and a reader that recovers a response's status,
 * content type and content from those bytes.
 */
module ResponseWriter {
  import opened Wrappers
  import opened CStrings
  import opened HttpTypes

  const StatusPrefix: CString := "HTTP/1.0 "
  const CacheControl: string := "Cache-Control: max-age=0, no-cache, must-revalidate, proxy-revalidate"
  const Origin: string := "Access-Control-Allow-Origin: *"
  const ContentLengthPrefix: CString := "Content-Length: "
  const ContentTypePrefix: CString := "Content-Type: "

  /** The stack buffer every header line is formatted into. */
  const FormatBufferSize: nat := 1024
  /** The largest content length the int cast in the final send keeps intact. */
  const IntMax: nat := 0x7FFF_FFFF

  /** A message value the table has text for; any other value makes the writer return at once. */
  predicate KnownMessage(m: int) {
    0 <= m < NumMessages
  }

  /** Content and a content type are both present, so the long form is written. */
  predicate HasBody(r: Response) {
    r.content.Some? && r.contentType.Some?
  }

  /**
   * The writer's behaviour is defined: the Content-Type line fits the format
   * buffer (snprintf would otherwise report a longer length than it wrote and
   * send would read past the buffer) and the content length survives the int
   * cast. Only the long form formats these.
   */
  predicate Sendable(r: Response)
    ensures !KnownMessage(r.message) || !HasBody(r) ==> Sendable(r)
    ensures Sendable(r) && KnownMessage(r.message) && HasBody(r) ==>
              var line := ContentTypeLine(CStr(r.contentType.value));
              Snprintf(line, FormatBufferSize) == line
  {
    KnownMessage(r.message) && HasBody(r) ==>
      |ContentTypePrefix| + |CStr(r.contentType.value)| + 1 < FormatBufferSize
      && |CStr(r.content.value)| <= IntMax
  }

  function StatusLine(m: int): string
    requires KnownMessage(m)
  {
    StatusPrefix + Messages[m] + "\n"
  }

  function CacheLine(): string {
    CacheControl + "\n"
  }

  function OriginLine(): string {
    Origin + "\n"
  }

  function ContentLengthLine(n: nat): string {
    ContentLengthPrefix + DecimalDigits(n) + "\n"
  }

  function ContentTypeLine(contentType: CString): string {
    ContentTypePrefix + contentType + "\n"
  }

  /** The content as the writer sends it: what strlen sees of the content pointer. */
  function Body(r: Response): CString
    requires HasBody(r)
  {
    CStr(r.content.value)
  }

  /** What follows the status and cache lines. */
  function HeaderTail(r: Response): string
    requires Sendable(r)
  {
    if HasBody(r) then
      ContentLengthLine(|Body(r)|) + ContentTypeLine(CStr(r.contentType.value)) + OriginLine() + "\n"
    else
      OriginLine()
  }

  /**
   * Everything the successive sends put on the wire, in order: nothing for an
   * unknown message; otherwise the status line and the cache line, then in the
   * long form the length, type and origin lines, a blank line and the content,
   * and in the short form the origin line alone.
   */
  function ResponseBytes(r: Response): (out: string)
    requires Sendable(r)
    ensures !KnownMessage(r.message) <==> out == []
  {
    if !KnownMessage(r.message) then []
    else StatusLine(r.message) + CacheLine() + HeaderTail(r) + (if HasBody(r) then Body(r) else [])
  }

  /** A response with a known message starts with its status line, then the cache line. */
  lemma ResponseStartsWithStatus(r: Response)
    requires Sendable(r) && KnownMessage(r.message)
    ensures StatusLine(r.message) + CacheLine() <= ResponseBytes(r)
  {
    var head := StatusLine(r.message) + CacheLine();
    var tail := HeaderTail(r) + (if HasBody(r) then Body(r) else []);
    assert ResponseBytes(r) == head + tail;
  }

  /** Whatever the writer sends starts with "HTTP/1.0 ". */
  lemma WrittenStartsWithStatus(r: Response)
    requires Sendable(r)
    ensures ResponseBytes(r) != [] ==> StatusPrefix <= ResponseBytes(r)
  {
    if KnownMessage(r.message) {
      ResponseStartsWithStatus(r);
      assert StatusLine(r.message) == StatusPrefix + (Messages[r.message] + "\n");
    }
  }

  /** In the long form the content is the last thing written; in the short form the origin line is. */
  lemma ResponseEndsWithContent(r: Response)
    requires Sendable(r) && KnownMessage(r.message)
    ensures HasBody(r) ==> |Body(r)| <= |ResponseBytes(r)|
                           && ResponseBytes(r)[|ResponseBytes(r)| - |Body(r)|..] == Body(r)
    ensures !HasBody(r) ==> |OriginLine()| <= |ResponseBytes(r)|
                            && ResponseBytes(r)[|ResponseBytes(r)| - |OriginLine()|..] == OriginLine()
  {
  }

  /** One line of text and what follows its line feed. */
  datatype Line = Line(text: string, rest: string)

  /** Splits s at its first line feed; None when s holds no line feed. */
  function SplitLine(s: string): (r: Option<Line>)
    ensures r.None? <==> '\n' !in s
    ensures r.Some? ==> '\n' !in r.value.text && s == r.value.text + "\n" + r.value.rest
  {
    if s == [] then None
    else if s[0] == '\n' then Some(Line([], s[1..]))
    else match SplitLine(s[1..])
      case None => None
      case Some(line) => Some(Line([s[0]] + line.text, line.rest))
  }

  /** A line without a line feed followed by one is split back off exactly. */
  lemma {:induction false} SplitLineOf(a: string, b: string)
    requires '\n' !in a
    ensures SplitLine(a + "\n" + b) == Some(Line(a, b))
  {
    var s := a + "\n" + b;
    if a == [] {
      assert s == "\n" + b;
      assert s[1..] == b;
    } else {
      assert s[0] == a[0] != '\n';
      assert s[1..] == a[1..] + "\n" + b;
      SplitLineOf(a[1..], b);
      assert SplitLine(s) == Some(Line([a[0]] + a[1..], b));
      assert [a[0]] + a[1..] == a;
    }
  }

  /** What a client can read back from the server's bytes. */
  datatype ParsedResponse = ParsedResponse(status: string, payload: Option<Payload>)
  datatype Payload = Payload(contentType: string, content: string)

  /** s starts with the fixed text; what follows it. */
  function Expect(text: string, s: string): (r: Option<string>)
    ensures r.Some? <==> text <= s
    ensures r.Some? ==> s == text + r.value
  {
    if text <= s then Some(s[|text|..]) else None
  }

  /**
   * Reads the writer's output: "HTTP/1.0 ", the status text up to a line feed,
   * the cache line, then the remaining headers.
   */
  function ReadResponse(out: string): Option<ParsedResponse> {
    var afterPrefix :- Expect(StatusPrefix, out);
    var status :- SplitLine(afterPrefix);
    var afterCache :- Expect(CacheLine(), status.rest);
    var payload :- ReadHeaders(afterCache);
    Some(ParsedResponse(status.text, payload))
  }

  /** Either the long form with its payload, or the origin line alone (no payload). */
  function ReadHeaders(s: string): Option<Option<Payload>> {
    if ContentLengthPrefix <= s then
      var payload :- ReadLongForm(s);
      Some(Some(payload))
    else if s == OriginLine() then Some(None)
    else None
  }

  /**
   * Content-Length with its decimal value, Content-Type with its text, the
   * origin line and a blank line, then exactly Content-Length bytes of content.
   */
  function ReadLongForm(s: string): Option<Payload> {
    var afterName :- Expect(ContentLengthPrefix, s);
    var length :- SplitLine(afterName);
    if !IsDecimal(length.text) then None
    else
      var afterType :- Expect(ContentTypePrefix, length.rest);
      var ctype :- SplitLine(afterType);
      var content :- Expect(OriginLine() + "\n", ctype.rest);
      if |content| != DecimalValue(length.text) then None
      else Some(Payload(ctype.text, content))
  }

  lemma ExpectOf(text: string, rest: string)
    ensures Expect(text, text + rest) == Some(rest)
  {
    assert (text + rest)[|text|..] == rest;
  }

  lemma MessagesAreSingleLines(m: int)
    requires KnownMessage(m)
    ensures '\n' !in Messages[m]
  {
  }

  /** The short form's origin line is not mistaken for a Content-Length line. */
  lemma OriginLineIsNotContentLength()
    ensures !(ContentLengthPrefix <= OriginLine())
  {
    assert OriginLine()[0] == 'A' != ContentLengthPrefix[0];
  }

  lemma NestLongForm(digits: string, ct: string, origin: string, body: string)
    ensures ContentLengthPrefix + digits + "\n" + (ContentTypePrefix + ct + "\n") + origin + "\n" + body
            == ContentLengthPrefix + (digits + "\n" + (ContentTypePrefix + (ct + "\n" + (origin + "\n" + body))))
  {
  }

  /** The long form's header lines read back as the content type and exactly the content. */
  lemma {:induction false} ReadLongFormOf(contentType: CString, body: CString)
    requires '\n' !in contentType
    ensures var s := ContentLengthLine(|body|) + ContentTypeLine(contentType) + OriginLine() + "\n" + body;
            ContentLengthPrefix <= s && ReadLongForm(s) == Some(Payload(contentType, body))
  {
    var digits := DecimalDigits(|body|);
    var afterCt := OriginLine() + "\n" + body;
    var afterLength := ContentTypePrefix + (contentType + "\n" + afterCt);
    NestLongForm(digits, contentType, OriginLine(), body);
    ExpectOf(ContentLengthPrefix, digits + "\n" + afterLength);
    SplitLineOf(digits, afterLength);
    DecimalRoundTrip(|body|);
    ExpectOf(ContentTypePrefix, contentType + "\n" + afterCt);
    SplitLineOf(contentType, afterCt);
    ExpectOf(OriginLine() + "\n", body);
  }

  lemma NestResponse(message: string, cache: string, tail: string)
    ensures StatusPrefix + message + "\n" + cache + tail == StatusPrefix + (message + "\n" + (cache + tail))
  {
  }

  /** The status line and the cache line are read off; the remaining headers decide the rest. */
  lemma ReadResponseOf(message: string, tail: string)
    requires '\n' !in message
    ensures ReadHeaders(tail).Some? ==>
              ReadResponse(StatusPrefix + message + "\n" + CacheLine() + tail)
              == Some(ParsedResponse(message, ReadHeaders(tail).value))
  {
    NestResponse(message, CacheLine(), tail);
    ExpectOf(StatusPrefix, message + "\n" + (CacheLine() + tail));
    SplitLineOf(message, CacheLine() + tail);
    ExpectOf(CacheLine(), tail);
  }

  /**
   * The bytes written for a response read back as its status text and, in the
   * long form, its content type and content: the Content-Length header announces
   * exactly the bytes that follow the blank line.
   */
  lemma {:induction false} ReadWriteRoundTrip(r: Response)
    requires Sendable(r) && KnownMessage(r.message)
    requires HasBody(r) ==> '\n' !in CStr(r.contentType.value)
    ensures ReadResponse(ResponseBytes(r)) ==
            Some(ParsedResponse(Messages[r.message],
                                if HasBody(r)
                                then Some(Payload(CStr(r.contentType.value), CStr(r.content.value)))
                                else None))
  {
    var m := r.message;
    MessagesAreSingleLines(m);
    var tail := HeaderTail(r) + (if HasBody(r) then Body(r) else []);
    assert ResponseBytes(r) == StatusPrefix + Messages[m] + "\n" + CacheLine() + tail;
    if HasBody(r) {
      var ct := CStr(r.contentType.value);
      ReadLongFormOf(ct, Body(r));
      assert ReadHeaders(tail) == Some(Some(Payload(ct, Body(r))));
    } else {
      OriginLineIsNotContentLength();
      assert ReadHeaders(tail) == Some(None);
    }
    ReadResponseOf(Messages[m], tail);
  }

  /** The client socket: what has been sent on it, in order, and whether it was closed. */
  class Client {
    var sent: string
    var closed: bool

    constructor ()
      ensures sent == [] && !closed
    {
      sent := [];
      closed := false;
    }

    /** send() taken as complete: the bytes are appended to the stream. */
    method Send(bytes: string)
      modifies this
      ensures sent == old(sent) + bytes && closed == old(closed)
    {
      sent := sent + bytes;
    }

    method Close()
      modifies this
      ensures closed && sent == old(sent)
    {
      closed := true;
    }
  }

  lemma AppendAssociates(s: string, a: string, b: string, c: string, d: string, e: string, f: string)
    ensures s + (a + b + (c + d + e) + f) == s + a + b + c + d + e + f
    ensures s + (a + b + c) == s + a + b + c
  {
  }

  /** Appending a response to a stream appends its pieces, one per send, in order. */
  lemma AppendPieces(sent: string, r: Response)
    requires Sendable(r) && KnownMessage(r.message)
    ensures HasBody(r) ==>
              sent + ResponseBytes(r) ==
              sent + StatusLine(r.message) + CacheLine() + ContentLengthLine(|Body(r)|)
              + ContentTypeLine(CStr(r.contentType.value)) + (OriginLine() + "\n") + Body(r)
    ensures !HasBody(r) ==>
              sent + ResponseBytes(r) == sent + StatusLine(r.message) + CacheLine() + OriginLine()
  {
    if HasBody(r) {
      assert ResponseBytes(r) == StatusLine(r.message) + CacheLine() + HeaderTail(r) + Body(r);
      AppendAssociates(sent, StatusLine(r.message), CacheLine(), ContentLengthLine(|Body(r)|),
                       ContentTypeLine(CStr(r.contentType.value)), OriginLine() + "\n", Body(r));
    } else {
      assert ResponseBytes(r) == StatusLine(r.message) + CacheLine() + OriginLine() + [];
      AppendAssociates(sent, StatusLine(r.message), CacheLine(), OriginLine(), [], [], []);
    }
  }

  /** http_server_send_response: the header lines and the content, one send at a time. */
  method SendResponse(client: Client, r: Response)
    requires Sendable(r)
    modifies client
    ensures client.sent == old(client.sent) + ResponseBytes(r)
    ensures client.closed == old(client.closed)
  {
    if !KnownMessage(r.message) {
      return;
    }
    AppendPieces(client.sent, r);
    client.Send(StatusLine(r.message));
    client.Send(CacheLine());
    if r.content.Some? && r.contentType.Some? {
      var content := CStr(r.content.value);
      client.Send(ContentLengthLine(|content|));
      client.Send(ContentTypeLine(CStr(r.contentType.value)));
      client.Send(OriginLine() + "\n");
      client.Send(content);
    } else {
      client.Send(OriginLine());
    }
  }
}
