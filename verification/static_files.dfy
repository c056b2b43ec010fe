/**
 * The static content side of httpserver.c: the mount table that
 * http_server_add_static_directory builds, and the decision
 * http_server_handle_static_file makes for a request path. The file system is
 * a map from the path handed to fopen to the bytes a read returns.
 */
module StaticFiles {
  import opened Wrappers
  import opened CStrings
  import opened HttpUtils
  import opened HttpTypes
  import opened ResponseWriter

  /** One static directory entry: requests whose path starts with `path` are served from `directory`. */
  datatype Mount = Mount(path: CString, directory: CString)

  /** The files fopen can open, by the path it is given, with their contents. */
  type FileSystem = map<string, string>

  /** The size of the path buffer the file name is formatted into. */
  const PathBufferSize: nat := 512
  /** The most file content served: one less than the 100000-byte file buffer. */
  const MaxFileContent: nat := 99999

  const IndexFile: CString := "index.html"

  /** Mount k is the first mount, newest first, whose path is a prefix of the request path. */
  predicate FirstMatch(mounts: seq<Mount>, reqPath: CString, k: nat) {
    k < |mounts| && mounts[k].path <= reqPath
    && forall j :: 0 <= j < k ==> !(mounts[j].path <= reqPath)
  }

  /**
   * The mount walk: the first entry for which strncmp over the entry's path
   * length finds the request path equal, or None when there is none.
   */
  function FindMount(mounts: seq<Mount>, reqPath: CString): (r: Option<nat>)
    ensures r.Some? ==> FirstMatch(mounts, reqPath, r.value)
    ensures r.None? ==> forall j :: 0 <= j < |mounts| ==> !(mounts[j].path <= reqPath)
  {
    if mounts == [] then None
    else if Strncmp(mounts[0].path, reqPath, |mounts[0].path|) == 0 then Some(0)
    else match FindMount(mounts[1..], reqPath)
      case None => None
      case Some(k) => Some(k + 1)
  }

  /** At most one mount is the first match. */
  lemma FirstMatchUnique(mounts: seq<Mount>, reqPath: CString, k: nat, l: nat)
    requires FirstMatch(mounts, reqPath, k) && FirstMatch(mounts, reqPath, l)
    ensures k == l
  {
  }

  /** A mount added in front whose path matches is the one used. */
  lemma NewestMountWins(m: Mount, mounts: seq<Mount>, reqPath: CString)
    requires m.path <= reqPath
    ensures FindMount([m] + mounts, reqPath) == Some(0)
  {
  }

  /** A mount added in front that does not match leaves the choice among the older mounts as it was. */
  lemma NewMountSkipped(m: Mount, mounts: seq<Mount>, reqPath: CString)
    requires !(m.path <= reqPath)
    ensures FindMount([m] + mounts, reqPath) ==
            match FindMount(mounts, reqPath)
            case None => None
            case Some(k) => Some(k + 1)
  {
    assert ([m] + mounts)[1..] == mounts;
  }

  /** An empty file name or a lone slash stands for index.html. */
  function FileName(remainder: CString): (name: CString)
    ensures remainder == [] || remainder == "/" ==> name == IndexFile
    ensures remainder != [] && remainder != "/" ==> name == remainder
  {
    if remainder == [] || remainder == "/" then IndexFile else remainder
  }

  /** The path given to fopen: directory, a slash and the file name, cut to fit the 512-byte buffer. */
  function FilePath(directory: CString, name: CString): (path: string)
    ensures |path| < PathBufferSize
    ensures path <= directory + "/" + name
    ensures |path| == Min(|directory| + 1 + |name|, PathBufferSize - 1)
    ensures |directory| + 1 + |name| < PathBufferSize ==> path == directory + "/" + name
  {
    Snprintf(directory + "/" + name, PathBufferSize)
  }

  /** The content type for a request path, from the suffix of the whole path, first match wins. */
  function MimeType(reqPath: CString): (t: string)
    ensures t == "text/html" <==> StringEndsWith(reqPath, ".html")
    ensures t == "text/css" <==> !StringEndsWith(reqPath, ".html") && StringEndsWith(reqPath, ".css")
    ensures t == "application/javascript" <==>
              !StringEndsWith(reqPath, ".html") && !StringEndsWith(reqPath, ".css")
              && StringEndsWith(reqPath, ".js")
    ensures t == "text/plain" <==>
              !StringEndsWith(reqPath, ".html") && !StringEndsWith(reqPath, ".css")
              && !StringEndsWith(reqPath, ".js")
  {
    if StringEndsWith(reqPath, ".html") then "text/html"
    else if StringEndsWith(reqPath, ".css") then "text/css"
    else if StringEndsWith(reqPath, ".js") then "application/javascript"
    else "text/plain"
  }

  /** What is read from a file: its first MaxFileContent bytes, or all of it when it is no larger. */
  function FileContent(data: string): (content: string)
    ensures |content| <= MaxFileContent && content <= data
    ensures |content| == Min(|data|, MaxFileContent)
    ensures |data| <= MaxFileContent ==> content == data
  {
    data[..Min(|data|, MaxFileContent)]
  }

  /**
   * http_server_handle_static_file's decision: None when it returns false
   * (no mounts, no mount matches, the rest of the path holds "..", or the file
   * cannot be opened), otherwise the 200 response it sends.
   */
  function ResolveStatic(mounts: seq<Mount>, fs: FileSystem, reqPath: CString): (r: Option<Response>)
    ensures r.Some? ==> r.value.message == Http200Ok && HasBody(r.value) && Sendable(r.value)
    ensures r.Some? ==> r.value.contentType == Some(MimeType(reqPath))
    ensures r.Some? ==> |r.value.content.value| <= MaxFileContent
    ensures r.Some? <==>
      exists k: nat :: FirstMatch(mounts, reqPath, k)
        && !Contains(reqPath[|mounts[k].path|..], "..")
        && FilePath(mounts[k].directory, FileName(reqPath[|mounts[k].path|..])) in fs
  {
    if mounts == [] then None
    else match FindMount(mounts, reqPath)
      case None => None
      case Some(k) =>
        var remainder := reqPath[|mounts[k].path|..];
        if Contains(remainder, "..") then None
        else
          var path := FilePath(mounts[k].directory, FileName(remainder));
          if path !in fs then None
          else Some(Response(Http200Ok, Some(FileContent(fs[path])), Some(MimeType(reqPath))))
  }

  /** With no mounts nothing is served statically. */
  lemma NoMountsNoFile(fs: FileSystem, reqPath: CString)
    ensures ResolveStatic([], fs, reqPath) == None
  {
  }

  /** A request whose path after the matched mount holds ".." is never served statically. */
  lemma ParentPathRejected(mounts: seq<Mount>, fs: FileSystem, reqPath: CString, k: nat)
    requires FirstMatch(mounts, reqPath, k)
    requires Contains(reqPath[|mounts[k].path|..], "..")
    ensures ResolveStatic(mounts, fs, reqPath) == None
  {
    var f := FindMount(mounts, reqPath);
    FirstMatchUnique(mounts, reqPath, k, f.value);
  }

  /**
   * What is served: the file at directory + "/" + name under the first matching
   * mount, capped at MaxFileContent bytes, where name is the rest of the
   * request path, or index.html when that rest is empty or "/".
   */
  lemma ServedFile(mounts: seq<Mount>, fs: FileSystem, reqPath: CString, k: nat)
    requires FirstMatch(mounts, reqPath, k)
    requires ResolveStatic(mounts, fs, reqPath).Some?
    ensures var remainder := reqPath[|mounts[k].path|..];
            var path := FilePath(mounts[k].directory, FileName(remainder));
            path in fs && ResolveStatic(mounts, fs, reqPath).value.content == Some(FileContent(fs[path]))
  {
    var f := FindMount(mounts, reqPath);
    FirstMatchUnique(mounts, reqPath, k, f.value);
  }

  /**
   * A static hit is written only up to the file's first NUL byte: the writer
   * measures the content with strlen, so the bytes written end with the capped
   * file content cut at its first NUL.
   */
  lemma StaticFileSentUpToNul(mounts: seq<Mount>, fs: FileSystem, reqPath: CString, k: nat)
    requires FirstMatch(mounts, reqPath, k)
    requires ResolveStatic(mounts, fs, reqPath).Some?
    ensures var path := FilePath(mounts[k].directory, FileName(reqPath[|mounts[k].path|..]));
            var out := ResponseBytes(ResolveStatic(mounts, fs, reqPath).value);
            path in fs && |CStr(FileContent(fs[path]))| <= |out|
            && out[|out| - |CStr(FileContent(fs[path]))|..] == CStr(FileContent(fs[path]))
  {
    var r := ResolveStatic(mounts, fs, reqPath).value;
    var path := FilePath(mounts[k].directory, FileName(reqPath[|mounts[k].path|..]));
    ServedFile(mounts, fs, reqPath, k);
    assert HasBody(r) && Body(r) == CStr(FileContent(fs[path]));
    ResponseEndsWithContent(r);
  }

  /** The file names the index rule produces: the root of a mount is its index.html. */
  lemma MountRootIsIndex(m: Mount)
    ensures FilePath(m.directory, FileName([])) == Snprintf(m.directory + "/index.html", PathBufferSize)
    ensures FilePath(m.directory, FileName("/")) == Snprintf(m.directory + "/index.html", PathBufferSize)
  {
  }

  /**
   * The type comes from the request path, not from the file opened, so a
   * request for a directory ending in "/" served as its index.html is sent as
   * text/plain.
   */
  lemma IndexServedAsPlainText(reqPath: CString)
    requires |reqPath| > 0 && reqPath[|reqPath| - 1] == '/'
    ensures MimeType(reqPath) == "text/plain"
  {
  }
}
