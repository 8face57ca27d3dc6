/**
  The per-connection loop of the server (app/server.py). Each cycle reads
  from the client, parses a request, routes it, runs the handler and sends
  one response; the connection stays open until a read ends it or the
  response says it closes. The socket is a sequence of receive events, the
  bytes sent are collected in order, and the disk the file handlers use is
  threaded through.
 */
module Server {
  import opened Wrappers
  import opened Utf8
  import opened Constants
  import opened Exceptions
  import opened HttpRequest
  import opened HttpResponse
  import opened FileSystem
  import opened Handlers
  import opened Router

  /**
    What one `recv` on the client socket gives: bytes, one of the three
    transport errors the loop catches by name, or any other exception, which
    the loop's last `except` clause answers.
   */
  datatype Event = Received(data: bytes) | TimedOut | ConnectionReset | BrokenPipe | RecvFailed

  /** A `recv` that ends the loop with nothing sent: no data, or a timeout, reset or broken pipe. */
  predicate EndsSilently(e: Event)
  {
    match e
    case Received(data) => data == []
    case RecvFailed => false
    case _ => true
  }

  /** The response built from an HTTPException: its status, no headers, its message as body. */
  function ErrorReply(e: HttpError): Reply
  {
    Reply(e.status, [], TextBody(e.message))
  }

  /** The response built from `HTTPInternalServerError()` when any other exception escapes. */
  function CrashReply(): Reply
  {
    ErrorReply(Raise(InternalServerError, None))
  }

  /**
    The `except` clauses of one cycle: a response is sent as it is; an
    HTTPException becomes its error reply and closes the connection when its
    status is at least 500 or the request asked to; any other exception
    becomes the 500 reply and always closes.
   */
  function Answer(out: Outcome, close: bool): (Reply, bool)
  {
    match out
    case Replied(r) => (r, close)
    case Raised(e) => (ErrorReply(e), close || e.status.Code() >= 500)
    case Crashed => (CrashReply(), true)
  }

  /**
    One cycle on the bytes received: the reply sent, whether the connection
    closes after it, and the disk the handler leaves. The close flag starts
    false for every cycle and is set from the request once it parses.
   */
  function Cycle(routes: seq<Route>, default: Handler, directory: Option<string>, data: bytes,
                 disk: Disk, cwd: string, gzip: bytes -> bytes): (Reply, bool, Disk)
  {
    match Parse(data)
    case Err(e) =>
      var (r, c) := Answer(Raised(e), false);
      (r, c, disk)
    case Ok(req) =>
      var close := ShouldCloseConnection(req);
      match Resolve(routes, default, req.verb, req.path)
      case Err(e) =>
        var (r, c) := Answer(Raised(e), close);
        (r, c, disk)
      case Ok(h) =>
        var (out, d) := Run(h, req, directory, disk, cwd, gzip);
        var (r, c) := Answer(out, close);
        (r, c, d)
  }

  /**
    One turn of the loop on an event that does not end it silently: a cycle
    on the bytes received, or, when `recv` raised any other exception, the
    answer to that exception with the disk untouched.
   */
  function Turn(routes: seq<Route>, default: Handler, directory: Option<string>, e: Event,
                disk: Disk, cwd: string, gzip: bytes -> bytes): (Reply, bool, Disk)
    requires !EndsSilently(e)
  {
    if e.RecvFailed? then
      var (r, c) := Answer(Crashed, false);
      (r, c, disk)
    else Cycle(routes, default, directory, e.data, disk, cwd, gzip)
  }

  /**
    A whole connection over the events the socket delivers: the responses
    sent, in order, and the disk at the end. An empty read or a transport
    error ends it with nothing more sent; any other failure of `recv` is
    answered with the 500 reply, which closes; a response that cannot be
    encoded ends it too (the exception escapes the loop); a closing response
    is the last one.
   */
  function Session(routes: seq<Route>, default: Handler, directory: Option<string>, events: seq<Event>,
                   disk: Disk, cwd: string, gzip: bytes -> bytes): (seq<bytes>, Disk)
    decreases |events|
  {
    if events == [] || EndsSilently(events[0]) then ([], disk)
    else
      var (reply, close, d) := Turn(routes, default, directory, events[0], disk, cwd, gzip);
      match Serialize(reply, close)
      case None => ([], d)
      case Some(b) =>
        if close then ([b], d)
        else
          var (rest, d2) := Session(routes, default, directory, events[1..], d, cwd, gzip);
          ([b] + rest, d2)
  }

  /** The codes of the statuses a cycle can answer with. */
  lemma KnownCodes()
    ensures OK.Code() == 200 && CREATED.Code() == 201 && NOT_FOUND.Code() == 404
    ensures BAD_REQUEST.Code() == 400 && FORBIDDEN.Code() == 403 && METHOD_NOT_ALLOWED.Code() == 405
    ensures INTERNAL_SERVER_ERROR.Code() == 500
  {
  }

  /**
    Answering an outcome whose reply, if any, is one a handler gives: the
    connection closes exactly when the reply's status is at least 500 or the
    request asked to close; every reply has distinct header names; a reply
    of status 500 or more is an error reply with a text body and no headers.
   */
  lemma AnswerFacts(out: Outcome, close: bool)
    requires out.Replied? ==> DistinctKeys(out.reply.headers) && out.reply.status in {OK, CREATED, NOT_FOUND}
    ensures var (reply, c) := Answer(out, close);
      && (c <==> reply.status.Code() >= 500 || close)
      && DistinctKeys(reply.headers)
      && (reply.status.Code() >= 500 ==> reply.headers == [] && reply.body.TextBody?)
  {
    match out
    case Replied(r) =>
      KnownCodes();
    case Raised(e) =>
    case Crashed =>
      assert CrashReply().status == INTERNAL_SERVER_ERROR;
  }

  /**
    The close decision: the connection closes after a cycle exactly when the
    reply's status is at least 500 or the request parsed and asked to close.
    A request that fails to parse never closes the connection by itself.
   */
  lemma CloseDecision(routes: seq<Route>, default: Handler, directory: Option<string>, data: bytes,
                      disk: Disk, cwd: string, gzip: bytes -> bytes)
    ensures var (reply, close, d) := Cycle(routes, default, directory, data, disk, cwd, gzip);
      close <==> reply.status.Code() >= 500 || (Parse(data).Ok? && ShouldCloseConnection(Parse(data).value))
    ensures Parse(data).Err? ==> !Cycle(routes, default, directory, data, disk, cwd, gzip).1
  {
    match Parse(data)
    case Err(e) =>
      assert e.status == BAD_REQUEST;
      KnownCodes();
      AnswerFacts(Raised(e), false);
    case Ok(req) =>
      var close := ShouldCloseConnection(req);
      match Resolve(routes, default, req.verb, req.path)
      case Err(e) =>
        AnswerFacts(Raised(e), close);
      case Ok(h) =>
        RunEffects(h, req, directory, disk, cwd, gzip);
        AnswerFacts(Run(h, req, directory, disk, cwd, gzip).0, close);
  }

  /**
    What the failures answer: a request that fails to parse gets a 400
    carrying the parser's message, one the router rejects gets the router's
    405 with no headers at all (no Allow); neither touches the disk.
   */
  lemma FailureReplies(routes: seq<Route>, default: Handler, directory: Option<string>, data: bytes,
                       disk: Disk, cwd: string, gzip: bytes -> bytes)
    ensures var (reply, close, d) := Cycle(routes, default, directory, data, disk, cwd, gzip);
      && (Parse(data).Err? ==> reply == Reply(BAD_REQUEST, [], TextBody(Parse(data).error.message)) && d == disk)
      && (Parse(data).Ok? && Resolve(routes, default, Parse(data).value.verb, Parse(data).value.path).Err? ==>
            reply == Reply(METHOD_NOT_ALLOWED, [],
                           TextBody(NotAllowedMessage(Parse(data).value.verb, Parse(data).value.path,
                                                      AllowedIn(routes, Parse(data).value.path))))
            && d == disk)
  {
    match Parse(data)
    case Err(e) =>
    case Ok(req) =>
      match Resolve(routes, default, req.verb, req.path)
      case Err(e) =>
        NotAllowedError(routes, default, req.verb, req.path);
      case Ok(h) =>
  }

  /**
    Every reply has distinct header names, every reply of status 500 or more
    is an error reply without headers, and the disk changes only under the
    POST file handler.
   */
  lemma CycleReplies(routes: seq<Route>, default: Handler, directory: Option<string>, data: bytes,
                     disk: Disk, cwd: string, gzip: bytes -> bytes)
    ensures var (reply, close, d) := Cycle(routes, default, directory, data, disk, cwd, gzip);
      && DistinctKeys(reply.headers)
      && (reply.status.Code() >= 500 ==> reply.headers == [] && reply.body.TextBody?)
      && (d != disk ==>
            Parse(data).Ok? && Resolve(routes, default, Parse(data).value.verb, Parse(data).value.path) == Ok(FilePostHandler))
  {
    match Parse(data)
    case Err(e) =>
      AnswerFacts(Raised(e), false);
    case Ok(req) =>
      var close := ShouldCloseConnection(req);
      match Resolve(routes, default, req.verb, req.path)
      case Err(e) =>
        AnswerFacts(Raised(e), close);
      case Ok(h) =>
        RunEffects(h, req, directory, disk, cwd, gzip);
        AnswerFacts(Run(h, req, directory, disk, cwd, gzip).0, close);
  }

  /** The reply to an unexpected exception: 500, no headers, "Internal Server Error". */
  lemma CrashReplyText()
    ensures CrashReply() == Reply(INTERNAL_SERVER_ERROR, [], TextBody("Internal Server Error"))
  {
    assert StatusText(INTERNAL_SERVER_ERROR) == Some("Internal Server Error");
  }

  /**
    An error reply whose status text and message are ASCII is sent on a
    closing connection: its headers are the length of its payload and then
    `Connection: close`, and the bytes are its head and then the UTF-8 of
    its message.
   */
  lemma ClosingErrorReplySent(status: Status, text: string, msg: string)
    requires StatusTextOf(status, None) == text && Text.IsAscii(text)
    ensures var reply := Reply(status, [], TextBody(msg));
      && SentHeaders(reply, true) == [(ContentLengthHeader, Text.NatToString(|Encode(msg)|)), (ConnectionHeader, "close")]
      && Serialize(reply, true) == Some(Encode(Head(status, text, SentHeaders(reply, true))) + Encode(msg))
  {
    var h := [(ContentLengthHeader, Text.NatToString(|Encode(msg)|)), (ConnectionHeader, "close")];
    ClosingHeaders(status, msg);
    ClosingHeadersAscii(|Encode(msg)|);
    HeadAscii(status, text, h);
  }

  /** The headers sent with a closing error reply. */
  lemma ClosingHeaders(status: Status, msg: string)
    ensures SentHeaders(Reply(status, [], TextBody(msg)), true)
      == [(ContentLengthHeader, Text.NatToString(|Encode(msg)|)), (ConnectionHeader, "close")]
  {
    var length := (ContentLengthHeader, Text.NatToString(|Encode(msg)|));
    assert WithContentLength([], TextBody(msg)) == [length];
    assert |ConnectionHeader| != |ContentLengthHeader|;
    assert KeyIndex([length], ConnectionHeader).None?;
  }

  lemma ClosingHeadersAscii(n: nat)
    ensures var h := [(ContentLengthHeader, Text.NatToString(n)), (ConnectionHeader, "close")];
      forall j :: 0 <= j < |h| ==> Text.IsAscii(h[j].0) && Text.IsAscii(h[j].1)
  {
    assert Text.IsAscii(ContentLengthHeader) && Text.IsAscii(ConnectionHeader) && Text.IsAscii("close") by {
      forall k | 0 <= k < |ContentLengthHeader| ensures ContentLengthHeader[k] < '\U{80}' { }
      forall k | 0 <= k < |ConnectionHeader| ensures ConnectionHeader[k] < '\U{80}' { }
      forall k | 0 <= k < |"close"| ensures "close"[k] < '\U{80}' { }
    }
    assert Text.IsAscii(Text.NatToString(n));
  }

  /**
    The 500 reply on a closing connection is sent: its headers are the
    length of its payload and then `Connection: close`, and the payload is
    the UTF-8 of "Internal Server Error".
   */
  lemma CrashResponseSent()
    ensures SentHeaders(CrashReply(), true)
      == [(ContentLengthHeader, Text.NatToString(|Encode("Internal Server Error")|)), (ConnectionHeader, "close")]
    ensures Serialize(CrashReply(), true)
      == Some(Encode(Head(INTERNAL_SERVER_ERROR, "Internal Server Error", SentHeaders(CrashReply(), true)))
              + Encode("Internal Server Error"))
  {
    CrashReplyText();
    InternalErrorText();
    ClosingErrorReplySent(INTERNAL_SERVER_ERROR, "Internal Server Error", "Internal Server Error");
  }

  lemma InternalErrorText()
    ensures StatusTextOf(INTERNAL_SERVER_ERROR, None) == "Internal Server Error"
    ensures Text.IsAscii("Internal Server Error")
  {
    var msg := "Internal Server Error";
    assert StatusText(INTERNAL_SERVER_ERROR) == Some(msg);
    forall k | 0 <= k < |msg| ensures msg[k] < '\U{80}' { }
  }

  /**
    A `recv` that fails with any other exception is answered with the 500
    reply on a closing connection, which is the last thing sent; the disk is
    left alone.
   */
  lemma RecvFailureAnswered(routes: seq<Route>, default: Handler, directory: Option<string>, events: seq<Event>, i: nat,
                            disk: Disk, cwd: string, gzip: bytes -> bytes)
    requires i < |events| && events[i].RecvFailed?
    ensures Serialize(CrashReply(), true).Some?
    ensures Session(routes, default, directory, events[i..], disk, cwd, gzip)
      == ([Serialize(CrashReply(), true).value], disk)
  {
    SessionStep(routes, default, directory, events, i, disk, cwd, gzip);
    FailedTurn(routes, default, directory, events[i], disk, cwd, gzip);
    CrashResponseSent();
  }

  /** The turn on bytes received is the cycle on them. */
  lemma ReceivedTurn(routes: seq<Route>, default: Handler, directory: Option<string>, e: Event,
                     disk: Disk, cwd: string, gzip: bytes -> bytes)
    requires e.Received? && e.data != []
    ensures Turn(routes, default, directory, e, disk, cwd, gzip) == Cycle(routes, default, directory, e.data, disk, cwd, gzip)
  {
  }

  /** The turn on a failed `recv`: the 500 reply, closing, with the disk untouched. */
  lemma FailedTurn(routes: seq<Route>, default: Handler, directory: Option<string>, e: Event,
                   disk: Disk, cwd: string, gzip: bytes -> bytes)
    requires e.RecvFailed?
    ensures Turn(routes, default, directory, e, disk, cwd, gzip) == (CrashReply(), true, disk)
    ensures CrashReply().headers == []
  {
  }

  /** A connection that sees no data first sends nothing and leaves the disk alone. */
  lemma SilentEnd(routes: seq<Route>, default: Handler, directory: Option<string>, events: seq<Event>,
                  disk: Disk, cwd: string, gzip: bytes -> bytes)
    requires events != [] && EndsSilently(events[0])
    ensures Session(routes, default, directory, events, disk, cwd, gzip) == ([], disk)
  {
  }

  /** At most one response per receive event. */
  lemma {:induction false} OneResponsePerCycle(routes: seq<Route>, default: Handler, directory: Option<string>,
                                               events: seq<Event>, disk: Disk, cwd: string, gzip: bytes -> bytes)
    ensures |Session(routes, default, directory, events, disk, cwd, gzip).0| <= |events|
    decreases |events|
  {
    if events != [] && !EndsSilently(events[0]) {
      var (reply, close, d) := Turn(routes, default, directory, events[0], disk, cwd, gzip);
      OneResponsePerCycle(routes, default, directory, events[1..], d, cwd, gzip);
    }
  }

  /**
    A request that fails to parse is answered and the connection goes on:
    the 400 is sent and the next event is served as if the connection were
    fresh.
   */
  lemma BadRequestKeepsAlive(routes: seq<Route>, default: Handler, directory: Option<string>,
                             events: seq<Event>, disk: Disk, cwd: string, gzip: bytes -> bytes)
    requires events != [] && events[0].Received? && events[0].data != [] && Parse(events[0].data).Err?
    ensures Serialize(ErrorReply(Parse(events[0].data).error), false).Some?
    ensures Session(routes, default, directory, events, disk, cwd, gzip).0
      == [Serialize(ErrorReply(Parse(events[0].data).error), false).value]
         + Session(routes, default, directory, events[1..], disk, cwd, gzip).0
  {
    var e := Parse(events[0].data).error;
    ParseFailureCycle(routes, default, directory, events[0].data, disk, cwd, gzip);
    BadRequestSent(e);
    ReceivedTurn(routes, default, directory, events[0], disk, cwd, gzip);
    assert !EndsSilently(events[0]);
    assert Turn(routes, default, directory, events[0], disk, cwd, gzip) == (ErrorReply(e), false, disk);
  }

  /** A request that does not parse gets its 400 reply, keeps the connection and leaves the disk alone. */
  lemma ParseFailureCycle(routes: seq<Route>, default: Handler, directory: Option<string>,
                          data: bytes, disk: Disk, cwd: string, gzip: bytes -> bytes)
    requires Parse(data).Err?
    ensures Cycle(routes, default, directory, data, disk, cwd, gzip) == (ErrorReply(Parse(data).error), false, disk)
  {
    var e := Parse(data).error;
    assert e.status == BAD_REQUEST;
    KnownCodes();
    assert Answer(Raised(e), false) == (ErrorReply(e), false);
  }

  /**
    A 400 reply is always sent on a connection that stays open: its one
    header is the length of its payload, and the bytes are its head and then
    the UTF-8 of its message, whatever the message holds.
   */
  lemma BadRequestSent(e: HttpError)
    requires e.status == BAD_REQUEST
    ensures SentHeaders(ErrorReply(e), false) == [(ContentLengthHeader, Text.NatToString(|Encode(e.message)|))]
    ensures Serialize(ErrorReply(e), false)
      == Some(Encode(Head(BAD_REQUEST, "Bad Request", SentHeaders(ErrorReply(e), false))) + Encode(e.message))
  {
    BadRequestText();
    TextReplySent(BAD_REQUEST, "Bad Request", e.message);
  }

  lemma BadRequestText()
    ensures StatusTextOf(BAD_REQUEST, None) == "Bad Request"
    ensures Text.IsAscii("Bad Request")
  {
    var text := "Bad Request";
    assert StatusText(BAD_REQUEST) == Some(text);
    forall k | 0 <= k < |text| ensures text[k] < '\U{80}' { }
  }

  /**
    A reply with status at least 500 ends the connection: it is the last
    response sent, and it says `Connection: close`.
   */
  lemma ServerErrorCloses(routes: seq<Route>, default: Handler, directory: Option<string>,
                          events: seq<Event>, disk: Disk, cwd: string, gzip: bytes -> bytes)
    requires events != [] && events[0].Received? && events[0].data != []
    requires Cycle(routes, default, directory, events[0].data, disk, cwd, gzip).0.status.Code() >= 500
    ensures |Session(routes, default, directory, events, disk, cwd, gzip).0| <= 1
    ensures var reply := Cycle(routes, default, directory, events[0].data, disk, cwd, gzip).0;
      Lookup(SentHeaders(reply, true), ConnectionHeader) == Some("close")
  {
    var data := events[0].data;
    CloseDecision(routes, default, directory, data, disk, cwd, gzip);
    CycleReplies(routes, default, directory, data, disk, cwd, gzip);
    SentHeadersPromise(Cycle(routes, default, directory, data, disk, cwd, gzip).0, true);
    ReceivedTurn(routes, default, directory, events[0], disk, cwd, gzip);
  }

  /** One turn of the loop on the suffix of the events from `i` on: a cycle, then stop or go on. */
  lemma SessionStep(routes: seq<Route>, default: Handler, directory: Option<string>, events: seq<Event>, i: nat,
                    disk: Disk, cwd: string, gzip: bytes -> bytes)
    requires i < |events| && !EndsSilently(events[i])
    ensures var (reply, close, d) := Turn(routes, default, directory, events[i], disk, cwd, gzip);
      var s := Session(routes, default, directory, events[i..], disk, cwd, gzip);
      var t := Session(routes, default, directory, events[i + 1..], d, cwd, gzip);
      && (Serialize(reply, close).None? ==> s == ([], d))
      && (Serialize(reply, close).Some? && close ==> s == ([Serialize(reply, close).value], d))
      && (Serialize(reply, close).Some? && !close ==> s == ([Serialize(reply, close).value] + t.0, t.1))
  {
    assert events[i..][0] == events[i] && events[i..][1..] == events[i + 1..];
  }

  /** The loop ends without sending when the events run out or the next read ends it silently. */
  lemma SessionStop(routes: seq<Route>, default: Handler, directory: Option<string>, events: seq<Event>, i: nat,
                    disk: Disk, cwd: string, gzip: bytes -> bytes)
    requires i <= |events| && (i == |events| || EndsSilently(events[i]))
    ensures Session(routes, default, directory, events[i..], disk, cwd, gzip) == ([], disk)
  {
    if i < |events| {
      assert events[i..][0] == events[i];
    }
  }

  /** Sending one response and then the rest is sending the rest after it. */
  lemma Regroup(sent: seq<bytes>, b: bytes, rest: seq<bytes>)
    ensures sent + ([b] + rest) == (sent + [b]) + rest
  {
  }

  /**
    `HTTPResponse(...)` on the reply, then `to_bytes(close_connection)`:
    the bytes handed to `sendall`, or None when the head is not ASCII.
   */
  method Send(reply: Reply, close: bool) returns (sent: Option<bytes>)
    requires DistinctKeys(reply.headers)
    ensures sent == Serialize(reply, close)
  {
    var response := new Response(reply.status, Some(reply.headers), reply.body, None);
    sent := response.ToBytes(close);
  }

  /** The server: the directory its file handlers use and its router. */
  class HttpServer {
    const directory: Option<string>
    const router: Router

    /** `HTTPServer(directory=..., router=...)`: a fresh router when none is given. */
    constructor (directory: Option<string>, router: Option<Router>)
      ensures this.directory == directory
      ensures router.Some? ==> this.router == router.value
      ensures router.None? ==> fresh(this.router) && this.router.routes == [] && this.router.defaultHandler == NotFoundHandler
    {
      this.directory := directory;
      if router.Some? {
        this.router := router.value;
      } else {
        this.router := new Router();
      }
    }

    /**
      The body of one keep-alive cycle: parse, route, run the handler, and
      turn an HTTPException or any other exception into the reply, with the
      close flag the loop keeps.
     */
    method Respond(data: bytes, disk: Disk, cwd: string, gzip: bytes -> bytes)
      returns (reply: Reply, closeConnection: bool, next: Disk)
      ensures (reply, closeConnection, next) == Cycle(router.routes, router.defaultHandler, directory, data, disk, cwd, gzip)
    {
      next := disk;
      closeConnection := false;
      var outcome: Outcome;
      var parsed := FromBytes(data);
      match parsed {
        case Err(e) =>
          outcome := Raised(e);
        case Ok(request) =>
          closeConnection := ShouldCloseConnection(request);
          var found := router.FindHandler(request);
          match found {
            case Err(e) =>
              outcome := Raised(e);
            case Ok(handler) =>
              outcome, next := Run(handler, request, directory, disk, cwd, gzip).0, Run(handler, request, directory, disk, cwd, gzip).1;
          }
      }
      reply, closeConnection := Answer(outcome, closeConnection).0, Answer(outcome, closeConnection).1;
    }

    /**
      `_handle_client_connection`, over the events the socket delivers: the
      bytes sent and the disk left. The routes are not changed.
     */
    method HandleClientConnection(events: seq<Event>, disk0: Disk, cwd: string, gzip: bytes -> bytes)
      returns (written: seq<bytes>, disk: Disk)
      ensures (written, disk) == Session(router.routes, router.defaultHandler, directory, events, disk0, cwd, gzip)
    {
      ghost var routes, default := router.routes, router.defaultHandler;
      written, disk := [], disk0;
      var i := 0;
      assert events[i..] == events;
      ghost var whole := Session(routes, default, directory, events, disk0, cwd, gzip);
      assert written + whole.0 == whole.0;
      while i < |events|
        invariant 0 <= i <= |events|
        invariant router.routes == routes && router.defaultHandler == default
        invariant whole.0 == written + Session(routes, default, directory, events[i..], disk, cwd, gzip).0
        invariant whole.1 == Session(routes, default, directory, events[i..], disk, cwd, gzip).1
        decreases |events| - i
      {
        var event := events[i];
        if EndsSilently(event) {
          SessionStop(routes, default, directory, events, i, disk, cwd, gzip);
          assert written + [] == written;
          return;
        }
        if event.RecvFailed? {
          // the last `except` clause answers, and the close it sets ends the loop
          RecvFailureAnswered(routes, default, directory, events, i, disk, cwd, gzip);
          FailedTurn(routes, default, directory, event, disk, cwd, gzip);
          var sent := Send(CrashReply(), true);
          written := written + [sent.value];
          return;
        }
        ghost var before := disk;
        var reply, closeConnection, d := Respond(event.data, disk, cwd, gzip);
        CycleReplies(routes, default, directory, event.data, before, cwd, gzip);
        SessionStep(routes, default, directory, events, i, before, cwd, gzip);
        disk := d;
        var sent := Send(reply, closeConnection);
        if sent.None? {
          assert written + [] == written;
          return;
        }
        ghost var prev, rest := written, Session(routes, default, directory, events[i + 1..], disk, cwd, gzip);
        written := written + [sent.value];
        if closeConnection {
          return;
        }
        assert whole.0 == prev + ([sent.value] + rest.0);
        Regroup(prev, sent.value, rest.0);
        i := i + 1;
      }
      SessionStop(routes, default, directory, events, i, disk, cwd, gzip);
      assert written + [] == written;
    }
  }
}
