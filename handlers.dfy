/**
  The request handlers (app/handlers.py). A handler is modelled by what it
  passes to `HTTPResponse` (a `Reply`) or by the exception it raises. The
  file handlers work on a `Disk` value and return the disk they leave; the
  working directory `abspath` reads and the gzip compressor are parameters.
 */
module Handlers {
  import opened Wrappers
  import opened Text
  import opened Utf8
  import opened Constants
  import opened Exceptions
  import opened HttpRequest
  import opened HttpResponse
  import opened PosixPath
  import opened FileSystem

  /** The handler functions of the server, the router's default among them. */
  datatype Handler = RootHandler | EchoHandler | UserAgentHandler | FileGetHandler | FilePostHandler | NotFoundHandler

  /** How a handler call ends: with a response, an HTTPException, or any other exception. */
  datatype Outcome = Replied(reply: Reply) | Raised(error: HttpError) | Crashed

  /** `handle_root`: 200 with no headers and no body. */
  function RootReply(): Reply
  {
    Reply(OK, [], NoBody)
  }

  /** The root response is the status line and the blank line, nothing else. */
  lemma RootResponseBytes()
    ensures Serialize(RootReply(), false) == Some(Encode("HTTP/1.1 200 OK\r\n\r\n"))
  {
    RootHead();
    RootHeadAscii();
    assert EncodeBody(NoBody) == [];
  }

  /** The head `to_bytes` writes for the root reply. */
  lemma RootHead()
    ensures Head(OK, StatusTextOf(OK, None), SentHeaders(RootReply(), false)) == "HTTP/1.1 200 OK\r\n\r\n"
  {
    assert OK.Code() == 200;
    assert NatToString(200) == "200";
    assert StatusTextOf(OK, None) == "OK";
    assert SentHeaders(RootReply(), false) == [];
  }

  lemma RootHeadAscii()
    ensures IsAscii("HTTP/1.1 200 OK\r\n\r\n")
  {
    var head := "HTTP/1.1 200 OK\r\n\r\n";
    forall k | 0 <= k < |head| ensures head[k] < '\U{80}' { }
  }

  const EchoPrefix := "/echo/"

  /** The Accept-Encoding tokens `handle_echo` compares: the comma-separated pieces, stripped. */
  function EncodingTokens(v: string): seq<string>
  {
    MapSeq(SplitOn(v, ','), Strip)
  }

  /** `[f(x) for x in s]`. */
  function MapSeq(s: seq<string>, f: string -> string): seq<string>
  {
    seq(|s|, k requires 0 <= k < |s| => f(s[k]))
  }

  /** `"gzip" in [enc.strip() for enc in v.split(",")]`. */
  predicate AcceptsGzip(v: string)
  {
    "gzip" in EncodingTokens(v)
  }

  /** A value without commas is one token: it accepts gzip iff, stripped, it is exactly "gzip". */
  lemma AcceptsGzipOneToken(v: string)
    requires ',' !in v
    ensures AcceptsGzip(v) <==> Strip(v) == "gzip"
  {
    assert EncodingTokens(v) == [Strip(v)];
  }

  /** A list accepts gzip iff one of its two comma-separated parts does. */
  lemma AcceptsGzipList(a: string, b: string)
    ensures AcceptsGzip(a + "," + b) <==> AcceptsGzip(a) || AcceptsGzip(b)
  {
    assert a + "," + b == a + [','] + b;
    SplitOnAppend(a, b, ',');
    MapSeqAppend(SplitOn(a, ','), SplitOn(b, ','), Strip);
  }

  /** Mapping over two lists, one after the other, is mapping over each and joining the results. */
  lemma MapSeqAppend(p: seq<string>, q: seq<string>, f: string -> string)
    ensures MapSeq(p + q, f) == MapSeq(p, f) + MapSeq(q, f)
  {
    var all, front, back := MapSeq(p + q, f), MapSeq(p, f), MapSeq(q, f);
    forall k | 0 <= k < |all| ensures all[k] == (front + back)[k] {
      if k < |p| {
        assert (p + q)[k] == p[k];
      } else {
        assert (p + q)[k] == q[k - |p|];
      }
    }
  }

  /**
    `handle_echo`: the path after "/echo/" in UTF-8 as a text/plain body,
    compressed with `Content-Encoding: gzip` iff the client lists the token
    "gzip". Uncompressed, the body decodes back to that path suffix.
   */
  function EchoReply(req: Request, gzip: bytes -> bytes): (r: Reply)
    ensures r.status == OK && r.body.BytesBody? && DistinctKeys(r.headers)
    ensures Lookup(r.headers, ContentTypeHeader) == Some(TextPlain)
    ensures forall i :: 0 <= i < |r.headers| ==>
              r.headers[i].0 == ContentTypeHeader || r.headers[i].0 == ContentEncodingHeader
    ensures AcceptsGzip(GetHeader(req, AcceptEncodingHeader, "")) ==>
              r.body.data == gzip(Encode(From(req.path, |EchoPrefix|)))
              && Lookup(r.headers, ContentEncodingHeader) == Some("gzip")
    ensures !AcceptsGzip(GetHeader(req, AcceptEncodingHeader, "")) ==>
              Decode(r.body.data) == Some(From(req.path, |EchoPrefix|))
              && Lookup(r.headers, ContentEncodingHeader) == None
  {
    var body := Encode(From(req.path, |EchoPrefix|));
    var headers := [(ContentTypeHeader, TextPlain)];
    assert ContentEncodingHeader != ContentTypeHeader by {
      assert |ContentEncodingHeader| != |ContentTypeHeader|;
    }
    assert Lookup(headers, ContentTypeHeader) == Some(TextPlain);
    assert Lookup(headers, ContentEncodingHeader) == None;
    if AcceptsGzip(GetHeader(req, AcceptEncodingHeader, "")) then
      Reply(OK, SetHeader(headers, ContentEncodingHeader, "gzip"), BytesBody(gzip(body)))
    else
      DecodeEncode(From(req.path, |EchoPrefix|));
      Reply(OK, headers, BytesBody(body))
  }

  /** None of the handlers' header names is a spelling of Content-Length. */
  lemma EchoHeadersLackContentLength(req: Request, gzip: bytes -> bytes)
    ensures !HasContentLength(EchoReply(req, gzip).headers)
  {
    var h := EchoReply(req, gzip).headers;
    forall i | 0 <= i < |h| ensures Lower(h[i].0) != Lower(ContentLengthHeader) {
      assert |Lower(h[i].0)| == |h[i].0| != |ContentLengthHeader|;
    }
  }

  /** Echo's Content-Length is the length of the body actually sent, compressed or not. */
  lemma EchoContentLength(req: Request, gzip: bytes -> bytes, close: bool)
    ensures var r := EchoReply(req, gzip);
      var sent := Lookup(SentHeaders(r, close), ContentLengthHeader);
      sent.Some? && IsDecimalOf(sent.value, |r.body.data|)
  {
    EchoHeadersLackContentLength(req, gzip);
    SentHeadersPromise(EchoReply(req, gzip), close);
  }

  /** `handle_user_agent`: the User-Agent value, or "Unknown" without one, as a text/plain body. */
  function UserAgentReply(req: Request): (r: Reply)
    ensures r.status == OK && DistinctKeys(r.headers)
    ensures Lookup(r.headers, ContentTypeHeader) == Some(TextPlain)
    ensures r.body == TextBody(if "user-agent" in req.headers then req.headers["user-agent"] else "Unknown")
  {
    assert Lower(UserAgentHeader) == "user-agent";
    Reply(OK, [(ContentTypeHeader, TextPlain)], TextBody(GetHeader(req, UserAgentHeader, "Unknown")))
  }

  /** `handle_not_found`: 404 with the body "Resource not found.". */
  function NotFoundReply(): Reply
  {
    Reply(NOT_FOUND, [], TextBody("Resource not found."))
  }

  /**
    The bytes sent for the 404 reply on a connection that stays open, line
    by line: the status line, the injected length of the 19-byte text, the
    blank line, and the text.
   */
  lemma NotFoundResponseBytes()
    ensures Serialize(NotFoundReply(), false)
      == Some(Encode("HTTP/1.1 404 Not Found\r\n") + Encode("Content-Length: 19\r\n") + Encode("\r\n")
              + Encode("Resource not found."))
    ensures Serialize(NotFoundReply(), false)
      == Some(Encode("HTTP/1.1 404 Not Found\r\nContent-Length: 19\r\n\r\nResource not found."))
  {
    NotFoundText();
    NotFoundBodyAscii();
    AsciiTextReplyBytes(NOT_FOUND, "Not Found", "Resource not found.");
    NotFoundStatusLine();
    NotFoundLengthLine();
    NotFoundWire();
  }

  /** The four parts of the 404 reply, encoded one by one, are the encoding of the whole. */
  lemma NotFoundWire()
    ensures Encode("HTTP/1.1 404 Not Found\r\n") + Encode("Content-Length: 19\r\n") + Encode("\r\n")
              + Encode("Resource not found.")
      == Encode("HTTP/1.1 404 Not Found\r\nContent-Length: 19\r\n\r\nResource not found.")
  {
    EncodeFour("HTTP/1.1 404 Not Found\r\n", "Content-Length: 19\r\n", "\r\n", "Resource not found.");
    NotFoundWireText();
  }

  lemma NotFoundWireText()
    ensures "HTTP/1.1 404 Not Found\r\n" + "Content-Length: 19\r\n" + "\r\n" + "Resource not found."
      == "HTTP/1.1 404 Not Found\r\nContent-Length: 19\r\n\r\nResource not found."
  {
    assert "HTTP/1.1 404 Not Found\r\n" + "Content-Length: 19\r\n" + "\r\n"
      == "HTTP/1.1 404 Not Found\r\nContent-Length: 19\r\n\r\n";
  }

  /** The status line `to_bytes` writes for the 404 reply, in bytes. */
  lemma NotFoundStatusLine()
    ensures Encode(StatusLine(NOT_FOUND, "Not Found")) == Encode("HTTP/1.1 404 Not Found\r\n")
  {
    NotFoundStatusText();
  }

  lemma NotFoundStatusText()
    ensures StatusLine(NOT_FOUND, "Not Found") == "HTTP/1.1 404 Not Found\r\n"
  {
    NotFoundCode();
  }

  lemma NotFoundCode()
    ensures NatToString(NOT_FOUND.Code()) == "404"
  {
    assert NOT_FOUND.Code() == 404;
    assert NatToString(40) == "40";
  }

  /** The Content-Length line of the 404 reply, in bytes: its text has 19 characters. */
  lemma NotFoundLengthLine()
    ensures Encode(HeaderLine((ContentLengthHeader, NatToString(|"Resource not found."|))))
      == Encode("Content-Length: 19\r\n")
  {
    assert NatToString(19) == "19";
    assert HeaderLine((ContentLengthHeader, "19")) == "Content-Length: 19\r\n";
  }

  lemma NotFoundText()
    ensures StatusTextOf(NOT_FOUND, None) == "Not Found"
    ensures IsAscii("Not Found")
  {
    var text := "Not Found";
    assert StatusText(NOT_FOUND) == Some(text);
    forall k | 0 <= k < |text| ensures text[k] < '\U{80}' { }
  }

  lemma NotFoundBodyAscii()
    ensures IsAscii("Resource not found.")
  {
    var msg := "Resource not found.";
    forall k | 0 <= k < |msg| ensures msg[k] < '\U{80}' { }
  }

  const FilesPrefix := "/files/"

  /** The errors the file handlers raise. */
  const NoDirectory := Raise(InternalServerError, Some("File directory not configured on server."))
  const AccessDenied := Raise(Forbidden, Some("Access denied to file path."))
  const ReadFailed := Raise(InternalServerError, Some("Error reading file."))
  const WriteFailed := Raise(InternalServerError, Some("Error writing file."))

  /** The path after "/files/", the resolved file path and the resolved directory. */
  function FileTarget(path: string, dir: string, cwd: string): (string, string, string)
  {
    var rel := From(path, |FilesPrefix|);
    (rel, AbsPath(JoinPath(dir, rel), cwd), AbsPath(dir, cwd))
  }

  /** `handle_file_get`: the guarded checks, then the read. */
  function FileGet(req: Request, directory: Option<string>, disk: Disk, cwd: string): Outcome
  {
    if directory.None? || directory.value == "" then Raised(NoDirectory)
    else
      var (rel, full, root) := FileTarget(req.path, directory.value, cwd);
      ServeFile(rel, full, root, disk)
  }

  /** The checks and the read of `handle_file_get` once the path after "/files/" is resolved to `full` under `root`. */
  function ServeFile(rel: string, full: string, root: string, disk: Disk): Outcome
  {
    if !StartsWith(full, root) then Raised(AccessDenied)
    else if !Exists(disk, full) then Raised(Raise(NotFound, Some("File not found: " + rel)))
    else if !IsFile(disk, full) then Raised(Raise(NotFound, Some("Path is not a file: " + rel)))
    else match ReadFile(disk, full)
      case Ok(data) => Replied(Reply(OK, [(ContentTypeHeader, ApplicationOctetStream)], BytesBody(data)))
      case Err(OsError) => Raised(ReadFailed)
      case Err(EmbeddedNul) => Crashed
  }

  /** The bytes `handle_file_post` writes: nothing for an empty body, its UTF-8 otherwise. */
  function PostedBytes(body: string): bytes
  {
    if body == "" then [] else Encode(body)
  }

  /** `handle_file_post`: the guarded checks, then `makedirs` of the parent and the write; the disk it leaves. */
  function FilePost(req: Request, directory: Option<string>, disk: Disk, cwd: string): (Outcome, Disk)
  {
    if directory.None? || directory.value == "" then (Raised(NoDirectory), disk)
    else
      var (rel, full, root) := FileTarget(req.path, directory.value, cwd);
      if !StartsWith(full, root) then (Raised(AccessDenied), disk)
      else StoreFile(disk, full, PostedBytes(req.body))
  }

  /** The `try` block of `handle_file_post`: `makedirs` of the parent, then the write. */
  function StoreFile(disk: Disk, full: string, data: bytes): (Outcome, Disk)
  {
    match MakeDirs(disk, DirName(full))
    case Err(OsError) => (Raised(WriteFailed), disk)
    case Err(EmbeddedNul) => (Crashed, disk)
    case Ok(d1) =>
      match WriteFile(d1, full, data)
      case Ok(d2) => (Replied(Reply(CREATED, [], BytesBody([]))), d2)
      case Err(OsError) => (Raised(WriteFailed), d1)
      case Err(EmbeddedNul) => (Crashed, d1)
  }

  /** Calling a handler: its outcome and the disk it leaves. */
  function Run(h: Handler, req: Request, directory: Option<string>, disk: Disk, cwd: string, gzip: bytes -> bytes): (Outcome, Disk)
  {
    match h
    case RootHandler => (Replied(RootReply()), disk)
    case EchoHandler => (Replied(EchoReply(req, gzip)), disk)
    case UserAgentHandler => (Replied(UserAgentReply(req)), disk)
    case FileGetHandler => (FileGet(req, directory, disk, cwd), disk)
    case FilePostHandler => FilePost(req, directory, disk, cwd)
    case NotFoundHandler => (Replied(NotFoundReply()), disk)
  }

  /**
    What a handler call can do: only the POST file handler changes the disk,
    and only it can end in an exception other than an HTTPException, which
    it does only for a resolved path holding a NUL character. Every reply has
    distinct header names and one of the statuses 200, 201 and 404.
   */
  lemma RunEffects(h: Handler, req: Request, directory: Option<string>, disk: Disk, cwd: string, gzip: bytes -> bytes)
    ensures var (out, d) := Run(h, req, directory, disk, cwd, gzip);
      && (h != FilePostHandler ==> d == disk)
      && (out.Replied? ==> DistinctKeys(out.reply.headers) && out.reply.status in {OK, CREATED, NOT_FOUND})
      && (out.Crashed? ==>
            h == FilePostHandler && directory.Some? && '\0' in FileTarget(req.path, directory.value, cwd).1)
  {
    match h
    case RootHandler =>
    case EchoHandler =>
    case UserAgentHandler =>
    case NotFoundHandler =>
    case FileGetHandler =>
      assert Run(h, req, directory, disk, cwd, gzip) == (FileGet(req, directory, disk, cwd), disk);
      if directory.Some? && directory.value != "" {
        FileGetOutcome(req, directory.value, disk, cwd);
      }
    case FilePostHandler =>
      assert Run(h, req, directory, disk, cwd, gzip) == FilePost(req, directory, disk, cwd);
      if directory.Some? && directory.value != "" {
        FilePostOutcome(req, directory.value, disk, cwd);
      }
  }

  /** The parent of a path without NUL characters has none either. */
  lemma DirNameNoNul(p: string)
    requires '\0' !in p
    ensures '\0' !in DirName(p)
  {
    var d := DirName(p);
    assert p[..|d|] == d;
    assert forall k :: 0 <= k < |d| ==> d[k] == p[k];
  }

  /** Without a configured directory both file handlers answer 500 and leave the disk alone. */
  lemma FileHandlersNeedDirectory(req: Request, directory: Option<string>, disk: Disk, cwd: string)
    requires directory.None? || directory.value == ""
    ensures FileGet(req, directory, disk, cwd) == Raised(NoDirectory)
    ensures FilePost(req, directory, disk, cwd) == (Raised(NoDirectory), disk)
    ensures NoDirectory.status == INTERNAL_SERVER_ERROR && FileGet(req, directory, disk, cwd).error.status.Code() == 500
  {
  }

  /**
    GET of a file: 200 with the file's bytes as application/octet-stream iff
    the resolved path is inside the directory by the prefix test, is a
    regular file and can be read; 403 when the prefix test fails; 404 when
    the path is missing or not a file; 500 otherwise. It never ends in any
    other exception.
   */
  lemma FileGetOutcome(req: Request, dir: string, disk: Disk, cwd: string)
    requires dir != ""
    ensures var (rel, full, root) := FileTarget(req.path, dir, cwd);
      var out := FileGet(req, Some(dir), disk, cwd);
      && !out.Crashed?
      && (out.Replied? <==> StartsWith(full, root) && IsFile(disk, full) && full !in disk.denied)
      && (out.Replied? ==> out.reply == Reply(OK, [(ContentTypeHeader, ApplicationOctetStream)], BytesBody(disk.files[full])))
      && (out.Raised? && out.error.status == FORBIDDEN <==> !StartsWith(full, root))
      && (out.Raised? && out.error.status == NOT_FOUND <==> StartsWith(full, root) && !IsFile(disk, full))
      && (out.Raised? && out.error.status == INTERNAL_SERVER_ERROR <==>
            StartsWith(full, root) && IsFile(disk, full) && full in disk.denied)
  {
    var (rel, full, root) := FileTarget(req.path, dir, cwd);
    assert FileGet(req, Some(dir), disk, cwd) == ServeFile(rel, full, root, disk);
    ServeFileOutcome(rel, full, root, disk);
  }

  lemma ServeFileOutcome(rel: string, full: string, root: string, disk: Disk)
    ensures var out := ServeFile(rel, full, root, disk);
      && !out.Crashed?
      && (out.Replied? <==> StartsWith(full, root) && IsFile(disk, full) && full !in disk.denied)
      && (out.Replied? ==> out.reply == Reply(OK, [(ContentTypeHeader, ApplicationOctetStream)], BytesBody(disk.files[full])))
      && (out.Raised? && out.error.status == FORBIDDEN <==> !StartsWith(full, root))
      && (out.Raised? && out.error.status == NOT_FOUND <==> StartsWith(full, root) && !IsFile(disk, full))
      && (out.Raised? && out.error.status == INTERNAL_SERVER_ERROR <==>
            StartsWith(full, root) && IsFile(disk, full) && full in disk.denied)
  {
    if StartsWith(full, root) && IsFile(disk, full) {
      assert ReadFile(disk, full) != Err(EmbeddedNul);
    }
  }

  /**
    POST of a file: 403 exactly when the prefix test fails, leaving the disk
    alone; otherwise a 201 with an empty body that stores the UTF-8 of the
    request body at the resolved path and changes no other file, or a 500,
    or, only for a resolved path holding a NUL character, another exception.
   */
  lemma FilePostOutcome(req: Request, dir: string, disk: Disk, cwd: string)
    requires dir != ""
    ensures var (rel, full, root) := FileTarget(req.path, dir, cwd);
      var (out, d) := FilePost(req, Some(dir), disk, cwd);
      && (out.Raised? && out.error.status == FORBIDDEN <==> !StartsWith(full, root))
      && (!StartsWith(full, root) ==> d == disk)
      && (out.Raised? ==> out.error.status == FORBIDDEN || out.error == WriteFailed)
      && (out.Replied? <==> StartsWith(full, root) && StoreFileSucceeded(disk, full, PostedBytes(req.body)))
      && (out.Replied? ==> out.reply == Reply(CREATED, [], BytesBody([])))
      && (out.Replied? ==> d.files == disk.files[full := PostedBytes(req.body)])
      && (out.Crashed? ==> StartsWith(full, root) && '\0' in full)
  {
    var (rel, full, root) := FileTarget(req.path, dir, cwd);
    assert AccessDenied.status == FORBIDDEN && WriteFailed.status == INTERNAL_SERVER_ERROR;
    if StartsWith(full, root) {
      assert FilePost(req, Some(dir), disk, cwd) == StoreFile(disk, full, PostedBytes(req.body));
      StoreFileOutcome(disk, full, PostedBytes(req.body));
    } else {
      assert FilePost(req, Some(dir), disk, cwd) == (Raised(AccessDenied), disk);
    }
  }

  /** `makedirs` of the parent directory and then the write both succeed. */
  predicate StoreFileSucceeded(disk: Disk, full: string, data: bytes)
  {
    var made := MakeDirs(disk, DirName(full));
    made.Ok? && WriteFile(made.value, full, data).Ok?
  }

  /**
    Storing a file: a 201 with an empty body exactly when `makedirs` and the
    write both succeed, putting `data` at `full` and changing no other file;
    otherwise a 500, or, only for a path holding a NUL character, another
    exception. Refusals are unchanged and no directory is lost.
   */
  lemma StoreFileOutcome(disk: Disk, full: string, data: bytes)
    ensures var (out, d) := StoreFile(disk, full, data);
      && (out.Replied? <==> StoreFileSucceeded(disk, full, data))
      && (out.Raised? ==> out.error == WriteFailed)
      && (out.Replied? ==> out.reply == Reply(CREATED, [], BytesBody([])))
      && (out.Replied? ==> d.files == disk.files[full := data])
      && (!out.Replied? ==> d.files == disk.files)
      && d.denied == disk.denied && disk.dirs <= d.dirs
      && (out.Crashed? ==> '\0' in full)
  {
    MakeDirsOnlyAddsDirectories(disk, DirName(full));
    match MakeDirs(disk, DirName(full))
    case Err(e) =>
      if e == EmbeddedNul && '\0' !in full {
        DirNameNoNul(full);
        MakeDirsNulOnlyFromNul(disk, DirName(full));
        assert false;
      }
      assert StoreFile(disk, full, data) == (if e == OsError then Raised(WriteFailed) else Crashed, disk);
    case Ok(d1) =>
      match WriteFile(d1, full, data)
      case Ok(d2) =>
        assert StoreFile(disk, full, data) == (Replied(Reply(CREATED, [], BytesBody([]))), d2);
      case Err(e) =>
        assert StoreFile(disk, full, data) == (if e == OsError then Raised(WriteFailed) else Crashed, d1);
  }

  /**
    Storing succeeds when the path holds no NUL, does not end in a slash, is
    neither a directory nor refused, and its parent directory can be made:
    the reply is a 201 and the file holds `data`.
   */
  lemma StoreFileSucceeds(disk: Disk, full: string, data: bytes)
    requires '\0' !in full && SplitPath(full).1 != ""
    requires full !in disk.dirs && full !in disk.denied
    requires CanMakeDirs(disk, DirName(full))
    ensures StoreFile(disk, full, data).0 == Replied(Reply(CREATED, [], BytesBody([])))
    ensures StoreFile(disk, full, data).1.files == disk.files[full := data]
  {
    var parent := DirName(full);
    MakeDirsSucceeds(disk, parent);
    MakeDirsOnlyAddsDirectories(disk, parent);
    MakeDirsAddsNoLonger(disk, parent);
    var d1 := MakeDirs(disk, parent).value;
    assert |parent| < |full|;
    assert full !in d1.dirs;
    assert WriteFile(d1, full, data) == Ok(d1.(files := d1.files[full := data]));
  }

  /**
    A POST whose resolved path passes the prefix test and can be stored (as
    in `StoreFileSucceeds`) replies 201 and stores the UTF-8 of the body.
   */
  lemma FilePostSucceeds(req: Request, dir: string, disk: Disk, cwd: string)
    requires dir != ""
    requires var (rel, full, root) := FileTarget(req.path, dir, cwd);
      && StartsWith(full, root) && '\0' !in full && SplitPath(full).1 != ""
      && full !in disk.dirs && full !in disk.denied && CanMakeDirs(disk, DirName(full))
    ensures var (rel, full, root) := FileTarget(req.path, dir, cwd);
      var (out, d) := FilePost(req, Some(dir), disk, cwd);
      out == Replied(Reply(CREATED, [], BytesBody([]))) && d.files == disk.files[full := PostedBytes(req.body)]
  {
    var (rel, full, root) := FileTarget(req.path, dir, cwd);
    assert FilePost(req, Some(dir), disk, cwd) == StoreFile(disk, full, PostedBytes(req.body));
    StoreFileSucceeds(disk, full, PostedBytes(req.body));
  }

  /**
    A file stored by a successful POST is served back by a GET of the same
    path: 200 with exactly the UTF-8 of the posted body.
   */
  lemma PostThenGet(post: Request, get: Request, dir: Option<string>, disk: Disk, cwd: string)
    requires get.path == post.path
    requires FilePost(post, dir, disk, cwd).0.Replied?
    ensures FilePost(post, dir, disk, cwd).0.reply == Reply(CREATED, [], BytesBody([]))
    ensures FileGet(get, dir, FilePost(post, dir, disk, cwd).1, cwd)
              == Replied(Reply(OK, [(ContentTypeHeader, ApplicationOctetStream)], BytesBody(Encode(post.body))))
  {
    var (rel, full, root) := FileTarget(post.path, dir.value, cwd);
    var data := PostedBytes(post.body);
    assert FilePost(post, dir, disk, cwd) == StoreFile(disk, full, data);
    StoredFileReadsBack(disk, full, data);
    assert data == Encode(post.body);
    GetOfReadableFile(get, dir.value, StoreFile(disk, full, data).1, cwd, data);
  }

  /** A GET of a path inside the directory that holds a readable file replies 200 with its bytes. */
  lemma GetOfReadableFile(get: Request, dir: string, d: Disk, cwd: string, data: bytes)
    requires dir != ""
    requires var (rel, full, root) := FileTarget(get.path, dir, cwd);
      StartsWith(full, root) && Exists(d, full) && IsFile(d, full) && ReadFile(d, full) == Ok(data)
    ensures FileGet(get, Some(dir), d, cwd) == Replied(Reply(OK, [(ContentTypeHeader, ApplicationOctetStream)], BytesBody(data)))
  {
  }

  /** After a successful store, which replies 201, the file is there and reads back as the stored bytes. */
  lemma StoredFileReadsBack(disk: Disk, full: string, data: bytes)
    requires StoreFile(disk, full, data).0.Replied?
    ensures StoreFile(disk, full, data).0 == Replied(Reply(CREATED, [], BytesBody([])))
    ensures var d := StoreFile(disk, full, data).1;
      Exists(d, full) && IsFile(d, full) && ReadFile(d, full) == Ok(data)
  {
    var d1 := MakeDirs(disk, DirName(full)).value;
    assert WriteFile(d1, full, data).Ok?;
    assert StoreFile(disk, full, data).1 == WriteFile(d1, full, data).value;
  }

  /** The 201 of a POST says `Content-Length: 0` and carries nothing after the blank line. */
  lemma CreatedIsEmpty(close: bool)
    ensures Lookup(SentHeaders(Reply(CREATED, [], BytesBody([])), close), ContentLengthHeader) == Some("0")
    ensures EncodeBody(BytesBody([])) == []
  {
    SentHeadersPromise(Reply(CREATED, [], BytesBody([])), close);
    assert NatToString(0) == "0";
  }

  /** GET and POST of "/files/.." are refused with 403 unless the directory is the file system root. */
  lemma ParentDirectoryForbidden(req: Request, dir: string, disk: Disk, cwd: string)
    requires IsAbs(cwd) && dir != "" && req.path == FilesPrefix + ".."
    requires AbsPath(dir, cwd) != "/" && AbsPath(dir, cwd) != "//"
    ensures FileGet(req, Some(dir), disk, cwd) == Raised(AccessDenied)
    ensures FilePost(req, Some(dir), disk, cwd) == (Raised(AccessDenied), disk)
  {
    assert From(req.path, |FilesPrefix|) == "..";
    ParentOutside(dir, cwd);
  }

  /** A relative path with no ".." component is never refused with 403. */
  lemma PlainPathNotForbidden(req: Request, dir: string, disk: Disk, cwd: string)
    requires IsAbs(cwd) && dir != ""
    requires var rel := From(req.path, |FilesPrefix|);
      !IsAbs(rel) && forall k :: 0 <= k < |SplitOn(rel, '/')| ==> SplitOn(rel, '/')[k] != ".."
    ensures FileGet(req, Some(dir), disk, cwd) != Raised(AccessDenied)
    ensures FilePost(req, Some(dir), disk, cwd).0 != Raised(AccessDenied)
  {
    DescendantInside(dir, From(req.path, |FilesPrefix|), cwd);
    PrefixTestPassed(req, dir, disk, cwd);
  }

  /** A resolved path that passes the prefix test is not refused with 403, by GET or by POST. */
  lemma PrefixTestPassed(req: Request, dir: string, disk: Disk, cwd: string)
    requires dir != ""
    requires var (rel, full, root) := FileTarget(req.path, dir, cwd); StartsWith(full, root)
    ensures FileGet(req, Some(dir), disk, cwd) != Raised(AccessDenied)
    ensures FilePost(req, Some(dir), disk, cwd).0 != Raised(AccessDenied)
  {
    var (rel, full, root) := FileTarget(req.path, dir, cwd);
    assert AccessDenied.status == FORBIDDEN && WriteFailed.status == INTERNAL_SERVER_ERROR;
    assert FileGet(req, Some(dir), disk, cwd) == ServeFile(rel, full, root, disk);
    ServeFileOutcome(rel, full, root, disk);
    assert FilePost(req, Some(dir), disk, cwd) == StoreFile(disk, full, PostedBytes(req.body));
    StoreFileOutcome(disk, full, PostedBytes(req.body));
  }

  /**
    The prefix test lets a sibling directory through: with the directory
    `base/name`, the request "/files/../" + name + suffix resolves outside
    the directory and yet passes the containment check.
   */
  lemma SiblingNotForbidden(req: Request, base: string, name: string, suffix: string, disk: Disk, cwd: string)
    requires IsAbs(base) || base == ""
    requires Segment(name) && suffix != "" && '/' !in suffix
    requires req.path == FilesPrefix + "../" + name + suffix
    ensures FileGet(req, Some(base + "/" + name), disk, cwd) != Raised(AccessDenied)
    ensures FilePost(req, Some(base + "/" + name), disk, cwd).0 != Raised(AccessDenied)
  {
    assert From(req.path, |FilesPrefix|) == "../" + name + suffix;
    SiblingPrefixAccepted(base, name, suffix, cwd);
    PrefixTestPassed(req, base + "/" + name, disk, cwd);
  }
}
