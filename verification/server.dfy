/**
 * The module state of httpserver.c and the operations that change it: the
 * initialized flag, the host socket, the request handler, the list of static
 * directories (newest first) and the receive buffer that http_server_listen
 * tokenises in place.
 */
module Server {
  import opened Wrappers
  import opened CStrings
  import opened HttpTypes
  import opened ResponseWriter
  import opened StaticFiles
  import opened Tokenizer
  import opened RequestHandling

  /** How creating, binding and listening on the host socket ended. */
  datatype SocketSetup =
    | Listening(socket: nat)          // a bound socket now listening
    | SetupFailed(lastSocket: int)    // address lookup, socket, bind or listen failed; the last value stored in host_socket

  /** A sequence is its part before k, the element at k and its part after k. */
  lemma SplitAround<T>(x: seq<T>, k: nat)
    requires k < |x|
    ensures x == x[..k] + [x[k]] + x[k + 1..]
  {
    assert x == x[..k] + x[k..];
    assert x[k..] == [x[k]] + x[k + 1..];
  }

  class HttpServer {
    var initialized: bool
    var hostSocket: int
    var handler: Option<Handler>
    /** The static directory list, head first. */
    var mounts: seq<Mount>
    /** The receive buffer. */
    const message: array<char>

    predicate Valid() {
      message.Length == MessageBufferSize
    }

    /** The state before any call: not initialized, no socket, no handler, no mounts. */
    constructor ()
      ensures Valid() && fresh(message)
      ensures !initialized && hostSocket == -1 && handler.None? && mounts == []
    {
      initialized := false;
      hostSocket := -1;
      handler := None;
      mounts := [];
      message := new char[MessageBufferSize](_ => NUL);
    }

    /**
     * http_server_add_static_directory: with both strings present and the
     * three allocations granted by malloc (granted), a new entry holding copies
     * of them goes to the head of the list; otherwise nothing changes. It does
     * not depend on initialization.
     */
    method AddStaticDirectory(path: Option<string>, directory: Option<string>, granted: bool)
      modifies this
      ensures path.None? || directory.None? || !granted ==> mounts == old(mounts)
      ensures path.Some? && directory.Some? && granted ==>
                mounts == [Mount(CStr(path.value), CStr(directory.value))] + old(mounts)
      ensures initialized == old(initialized) && hostSocket == old(hostSocket) && handler == old(handler)
    {
      if path.None? || directory.None? {
        return;
      }
      if !granted {
        return;
      }
      var entry := Mount(CStr(path.value), CStr(directory.value));
      mounts := [entry] + mounts;
    }

    /**
     * http_server_shutdown: nothing happens unless initialized; then the host
     * socket is closed, every static directory entry removed and the flag
     * cleared, so a second call does nothing. The handler stays.
     */
    method Shutdown()
      modifies this
      ensures old(initialized) ==> !initialized && hostSocket == -1 && mounts == []
      ensures !old(initialized) ==>
                !initialized && hostSocket == old(hostSocket) && mounts == old(mounts)
      ensures handler == old(handler)
    {
      if !initialized {
        return;
      }
      if hostSocket != -1 {
        hostSocket := -1;
      }
      mounts := [];
      initialized := false;
    }

    /**
     * http_server_initialize: the flag is set first, so a failed setup runs the
     * full shutdown, which also drops every static directory added before; the
     * handler is only stored on success.
     */
    method Initialize(h: Option<Handler>, setup: SocketSetup) returns (ok: bool)
      modifies this
      ensures ok <==> setup.Listening?
      ensures ok ==> initialized && hostSocket == setup.socket && handler == h && mounts == old(mounts)
      ensures !ok ==> !initialized && hostSocket == -1 && mounts == [] && handler == old(handler)
    {
      initialized := true;
      hostSocket := -1;
      match setup
      case SetupFailed(lastSocket) =>
        hostSocket := lastSocket;
        Shutdown();
        ok := false;
      case Listening(socket) =>
        hostSocket := socket;
        handler := h;
        ok := true;
    }

    /**
     * The mount walk of http_server_handle_static_file: the first entry whose
     * path strncmp finds equal to the start of the request path.
     */
    method FindDirectory(reqPath: CString) returns (dir: Option<nat>)
      ensures dir == FindMount(mounts, reqPath)
    {
      dir := None;
      var k := 0;
      while k < |mounts|
        invariant 0 <= k <= |mounts|
        invariant forall j :: 0 <= j < k ==> !(mounts[j].path <= reqPath)
      {
        if Strncmp(mounts[k].path, reqPath, |mounts[k].path|) == 0 {
          dir := Some(k);
          assert FirstMatch(mounts, reqPath, k);
          FirstMatchUnique(mounts, reqPath, k, FindMount(mounts, reqPath).value);
          return;
        }
        k := k + 1;
      }
    }

    /**
     * http_server_handle_static_file: true, after sending the file, exactly when
     * a static directory serves the request path; otherwise false and nothing
     * is sent.
     */
    method HandleStaticFile(client: Client, reqPath: CString, fs: FileSystem) returns (handled: bool)
      modifies client
      ensures handled <==> ResolveStatic(mounts, fs, reqPath).Some?
      ensures client.sent == old(client.sent)
                             + (if handled then ResponseBytes(ResolveStatic(mounts, fs, reqPath).value) else [])
      ensures client.closed == old(client.closed)
    {
      ghost var expected := ResolveStatic(mounts, fs, reqPath);
      if mounts == [] {
        assert expected.None?;
        return false;
      }
      var dir := FindDirectory(reqPath);
      if dir.None? {
        assert expected.None?;
        return false;
      }
      var entry := mounts[dir.value];
      var remainder := reqPath[|entry.path|..];
      if Contains(remainder, "..") {
        assert expected.None?;
        return false;
      }
      var path := FilePath(entry.directory, FileName(remainder));
      if path !in fs {
        assert expected.None?;
        return false;
      }
      var response := Response(Http200Ok, Some(FileContent(fs[path])), Some(MimeType(reqPath)));
      assert expected == Some(response);
      SendResponse(client, response);
      handled := true;
    }

    /**
     * Stores what recv delivered and its terminator at the start of the
     * receive buffer; the bytes after the terminator are left as they were.
     */
    method StoreRequest(data: string)
      requires Valid() && |data| < MessageBufferSize
      modifies message
      ensures message[..|data|] == data && message[|data|] == NUL
      ensures NUL in message[0..] && CStr(message[0..]) == CStr(data)
      ensures message[|data| + 1..] == old(message[|data| + 1..])
    {
      forall i | 0 <= i < |data| {
        message[i] := data[i];
      }
      message[|data|] := NUL;
      assert message[0..] == message[..|data|] + [NUL] + message[|data| + 1..];
      assert message[0..][|data|] == NUL;
      CStrTerminated(data, message[|data| + 1..]);
    }

    /**
     * The answer to a GET or POST request line with all three tokens: 400 for
     * an unsupported protocol, else the static file, else the handler's response.
     */
    method AnswerRequest(client: Client, request: Request, fs: FileSystem)
      requires SupportedProtocol(request.protocol) ==> Dispatch(request, mounts, fs, handler).Some?
      modifies client
      ensures client.sent == old(client.sent)
                             + if !SupportedProtocol(request.protocol) then ResponseBytes(BadRequest)
                               else Dispatch(request, mounts, fs, handler).value
      ensures client.closed == old(client.closed)
    {
      if !SupportedProtocol(request.protocol) {
        SendResponse(client, BadRequest);
        return;
      }
      ghost var expected := Dispatch(request, mounts, fs, handler).value;
      ghost var sentBefore := client.sent;
      var handled := HandleStaticFile(client, request.path, fs);
      if handled {
        assert expected == ResponseBytes(ResolveStatic(mounts, fs, request.path).value);
      } else if handler.Some? {
        var response := handler.value(request);
        assert expected == ResponseBytes(response);
        assert client.sent == sentBefore;
        SendResponse(client, response);
      } else {
        assert expected == [];
        assert client.sent == sentBefore + expected;
      }
    }

    /**
     * The first strtok call: the method token of the received text, and where
     * the next call resumes. The buffer is the stored request (the text, its
     * terminator and the older bytes after it) as that call leaves it.
     */
    method ReadMethod(data: string) returns (token: CString, next: nat)
      requires Valid() && |data| < MessageBufferSize
      requires ReadRequestLine(CStr(data)).httpMethod.Some?
      modifies message
      ensures Some(token) == ReadRequestLine(CStr(data)).httpMethod
      ensures next <= message.Length && NUL in message[next..]
      ensures CStr(message[next..]) == Strtok(CStr(data), MethodDelims).rest
      ensures StrtokEffect(CStr(data), data + [NUL] + old(message[|data| + 1..]), message[..],
                           0, MethodDelims, Some(token), next)
    {
      StoreRequest(data);
      ghost var stored := message[..];
      SplitAround(stored, |data|);
      assert message[0..] == stored[0..];
      ghost var s := CStr(message[0..]);
      assert s == CStr(data);
      var methodToken;
      methodToken, next := StrtokInPlace(message, 0, MethodDelims);
      token := methodToken.value;
      assert StrtokEffect(s, stored, message[..], 0, MethodDelims, methodToken, next);
    }

    /**
     * The second and third strtok calls, resuming at pos where the text rest
     * follows: the path and protocol tokens.
     */
    method ReadPathAndProtocol(pos: nat, ghost rest: CString)
      returns (path: Option<CString>, protocol: Option<CString>, afterPath: nat, afterProtocol: nat,
               ghost between: seq<char>)
      requires Valid() && pos <= message.Length && NUL in message[pos..]
      requires CStr(message[pos..]) == rest
      modifies message
      ensures path == Strtok(rest, PathDelims).token
      ensures protocol == Strtok(Strtok(rest, PathDelims).rest, ProtocolDelims).token
      ensures StrtokEffect(rest, old(message[..]), between, pos, PathDelims, path, afterPath)
      ensures StrtokEffect(Strtok(rest, PathDelims).rest, between, message[..],
                           afterPath, ProtocolDelims, protocol, afterProtocol)
    {
      path, afterPath := StrtokInPlace(message, pos, PathDelims);
      between := message[..];
      protocol, afterProtocol := StrtokInPlace(message, afterPath, ProtocolDelims);
    }

    /**
     * Stores the received bytes, takes the method token and, for GET or POST,
     * the path and protocol tokens from the buffer, and answers.
     */
    method AnswerReceived(client: Client, data: string, fs: FileSystem)
      requires Valid() && |data| < MessageBufferSize
      requires Respond(Received(data), mounts, fs, handler).Some?
      modifies message, client
      ensures client.sent == old(client.sent) + Respond(Received(data), mounts, fs, handler).value
      ensures client.closed == old(client.closed)
    {
      ghost var line := ReadRequestLine(CStr(data));
      var m, afterMethod := ReadMethod(data);
      if ServedMethod(m) {
        var path, protocol, _, _, _ := ReadPathAndProtocol(afterMethod, Strtok(CStr(data), MethodDelims).rest);
        assert line == RequestLine(Some(m), path, protocol);
        AnswerRequest(client, Request(m, path.value, protocol.value), fs);
      } else {
        assert client.sent == old(client.sent) + [];
      }
    }

    /**
     * http_server_listen for one connection: no connection (client == null)
     * or an uninitialized server does nothing; otherwise the request is read,
     * answered as Respond says, and the client closed.
     */
    method Listen(client: Client?, recv: RecvOutcome, fs: FileSystem)
      requires Valid()
      requires initialized && client != null ==> ValidRecv(recv) && Respond(recv, mounts, fs, handler).Some?
      modifies message, client
      ensures client != null && old(initialized) ==>
                client.closed && client.sent == old(client.sent) + Respond(recv, mounts, fs, handler).value
      ensures client != null && !old(initialized) ==>
                client.sent == old(client.sent) && client.closed == old(client.closed)
    {
      if !initialized || client == null {
        return;
      }
      if recv.Received? {
        AnswerReceived(client, recv.data, fs);
      }
      client.Close();
    }
  }
}
