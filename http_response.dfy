/**
  The response side of the message layer (app/http_response.py): a response
  object with a status, an ordered header dictionary and an optional body,
  which injects Content-Length when it is built and is serialised to bytes
  as a status line, header lines, a blank line and the body.
 */
module HttpResponse {
  import opened Wrappers
  import opened Text
  import opened Utf8
  import opened Constants

  /** The body a response is built with: none, text, or bytes. */
  datatype Body = NoBody | TextBody(text: string) | BytesBody(data: bytes)

  /** The payload `_encode_body` caches: nothing, the bytes as given, or the UTF-8 encoding of the text. */
  function EncodeBody(b: Body): (r: bytes)
    ensures b.NoBody? ==> r == []
    ensures b.BytesBody? ==> r == b.data
    ensures b.TextBody? ==> Decode(r) == Some(b.text) && |r| >= |b.text|
  {
    match b
    case NoBody => []
    case BytesBody(data) => data
    case TextBody(text) => DecodeEncode(text); Encode(text)
  }

  /**
    A Python dict of headers: the pairs in insertion order, no key twice.
    Key comparison is exact, as in a dict.
   */
  type Headers = seq<(string, string)>

  predicate DistinctKeys(h: Headers)
  {
    forall i, j :: 0 <= i < j < |h| ==> h[i].0 != h[j].0
  }

  /** The position of `key` in the dictionary, if it is there. */
  function KeyIndex(h: Headers, key: string): (r: Option<nat>)
    ensures r.Some? ==> r.value < |h| && h[r.value].0 == key
    ensures r.Some? ==> forall j :: 0 <= j < r.value ==> h[j].0 != key
    ensures r.None? ==> forall j :: 0 <= j < |h| ==> h[j].0 != key
  {
    if h == [] then None
    else if h[0].0 == key then Some(0)
    else match KeyIndex(h[1..], key)
      case None => None
      case Some(i) => Some(i + 1)
  }

  /** `d.get(key)`. */
  function Lookup(h: Headers, key: string): Option<string>
  {
    match KeyIndex(h, key)
    case None => None
    case Some(i) => Some(h[i].1)
  }

  /**
    `d[key] = value`: a key already present keeps its position and takes the
    new value; a new key is appended last. Every other key keeps its value.
   */
  function SetHeader(h: Headers, key: string, value: string): (r: Headers)
    ensures DistinctKeys(h) ==> DistinctKeys(r)
    ensures Lookup(r, key) == Some(value)
    ensures forall k :: k != key ==> Lookup(r, k) == Lookup(h, k)
    ensures KeyIndex(h, key).Some? ==> |r| == |h| && forall j :: 0 <= j < |h| ==> r[j].0 == h[j].0
    ensures KeyIndex(h, key).None? ==> r == h + [(key, value)]
  {
    match KeyIndex(h, key)
    case Some(i) =>
      var r := h[i := (key, value)];
      assert KeyIndex(r, key) == Some(i) by { KeyIndexFirst(r, key, i); }
      forall k | k != key ensures KeyIndex(r, k) == KeyIndex(h, k) {
        KeyIndexSameKeys(h, r, k);
      }
      r
    case None =>
      var r := h + [(key, value)];
      assert KeyIndex(r, key) == Some(|h|) by { KeyIndexFirst(r, key, |h|); }
      forall k | k != key ensures KeyIndex(r, k) == KeyIndex(h, k) {
        KeyIndexExtend(h, (key, value), k);
      }
      r
  }

  /** An index holding `key` with no earlier one is what KeyIndex finds. */
  lemma KeyIndexFirst(h: Headers, key: string, i: nat)
    requires i < |h| && h[i].0 == key
    requires forall j :: 0 <= j < i ==> h[j].0 != key
    ensures KeyIndex(h, key) == Some(i)
  {
  }

  /** Two dictionaries with the same keys at the same positions find a key at the same place. */
  lemma KeyIndexSameKeys(h: Headers, g: Headers, key: string)
    requires |h| == |g| && forall j :: 0 <= j < |h| ==> h[j].0 == g[j].0
    ensures KeyIndex(h, key) == KeyIndex(g, key)
  {
    match KeyIndex(h, key)
    case Some(i) => KeyIndexFirst(g, key, i);
    case None =>
  }

  /** Appending an entry with another key does not move the others. */
  lemma KeyIndexExtend(h: Headers, e: (string, string), key: string)
    requires e.0 != key
    ensures KeyIndex(h + [e], key) == KeyIndex(h, key)
  {
    var g := h + [e];
    match KeyIndex(h, key)
    case Some(i) => KeyIndexFirst(g, key, i);
    case None =>
  }

  /** Assigning the same value twice is assigning it once. */
  lemma SetHeaderIdempotent(h: Headers, key: string, value: string)
    ensures SetHeader(SetHeader(h, key, value), key, value) == SetHeader(h, key, value)
  {
    var r := SetHeader(h, key, value);
    var i := KeyIndex(r, key).value;
    assert r[i] == (key, value);
    assert r[i := (key, value)] == r;
  }

  /**
    `status_text or STATUS_TEXT.get(status_code, "Unknown")`: the caller's
    text when it is given and non-empty, otherwise the table's, otherwise
    "Unknown". Never empty.
   */
  function StatusTextOf(status: Status, given: Option<string>): (r: string)
    ensures r != []
    ensures given.Some? && given.value != [] ==> r == given.value
    ensures (given.None? || given.value == []) ==>
              r == if status in TabulatedStatuses then StatusText(status).value else "Unknown"
  {
    if given.Some? && given.value != [] then given.value
    else match StatusText(status)
      case Some(t) => t
      case None => "Unknown"
  }

  /** Some header name equals `Content-Length` once both are lower-cased. */
  predicate HasContentLength(h: Headers)
  {
    exists i :: 0 <= i < |h| && Lower(h[i].0) == Lower(ContentLengthHeader)
  }

  /**
    The headers the constructor leaves: a body without a header named
    content-length in any case gets `Content-Length` set to the decimal
    length of its payload; otherwise the headers are as given.
   */
  function WithContentLength(h: Headers, body: Body): Headers
  {
    if body.NoBody? || HasContentLength(h) then h
    else SetHeader(h, ContentLengthHeader, NatToString(|EncodeBody(body)|))
  }

  /**
    An injected Content-Length is appended after the caller's headers and
    reads back as exactly the number of payload bytes.
   */
  lemma ContentLengthInjected(h: Headers, body: Body)
    requires DistinctKeys(h) && !body.NoBody? && !HasContentLength(h)
    ensures WithContentLength(h, body) == h + [(ContentLengthHeader, NatToString(|EncodeBody(body)|))]
    ensures IsDecimalOf(Lookup(WithContentLength(h, body), ContentLengthHeader).value, |EncodeBody(body)|)
  {
    NoContentLengthKey(h);
    DecimalRoundTrip(|EncodeBody(body)|);
  }

  /** Without a header named content-length in any case, the key `Content-Length` is absent. */
  lemma NoContentLengthKey(h: Headers)
    requires !HasContentLength(h)
    ensures KeyIndex(h, ContentLengthHeader).None?
  {
    assert forall i :: 0 <= i < |h| ==> h[i].0 != ContentLengthHeader;
  }

  /** A header named Content-Length in any case is left as it is, and so is every header of a response without body. */
  lemma ContentLengthRespected(h: Headers, body: Body, i: nat)
    requires i < |h| && Lower(h[i].0) == Lower(ContentLengthHeader)
    ensures WithContentLength(h, body) == h
    ensures WithContentLength(h, NoBody) == h
  {
    assert HasContentLength(h);
  }

  /** The status line: protocol, numeric code, status text. */
  function StatusLine(status: Status, text: string): string
  {
    ProtocolVersion + " " + NatToString(status.Code()) + " " + text + CRLF
  }

  /** One header line. */
  function HeaderLine(e: (string, string)): string
  {
    e.0 + ": " + e.1 + CRLF
  }

  /** The header lines, in insertion order. */
  function HeaderBlock(h: Headers): string
  {
    if h == [] then "" else HeaderBlock(h[..|h| - 1]) + HeaderLine(h[|h| - 1])
  }

  lemma HeaderBlockSnoc(h: Headers, i: nat)
    requires i < |h|
    ensures HeaderBlock(h[..i + 1]) == HeaderBlock(h[..i]) + HeaderLine(h[i])
  {
    assert h[..i + 1][..i] == h[..i];
  }

  /** Everything before the body: status line, header lines, blank line. */
  function Head(status: Status, text: string, h: Headers): string
  {
    StatusLine(status, text) + HeaderBlock(h) + CRLF
  }

  /**
    The bytes `to_bytes` returns: the head encoded as ASCII followed by the
    payload, or None where the ASCII encoding raises UnicodeEncodeError.
   */
  function Wire(status: Status, text: string, h: Headers, payload: bytes): (r: Option<bytes>)
    ensures r.Some? <==> IsAscii(Head(status, text, h))
    ensures r.Some? ==> r.value == Encode(Head(status, text, h)) + payload
    ensures r.Some? && payload == [] ==> r.value == Encode(Head(status, text, h))
  {
    var line := StatusLine(status, text);
    var rest := HeaderBlock(h) + CRLF;
    AsciiAppend(line, rest);
    assert line + rest == Head(status, text, h);
    var a, b := AsciiEncode(line), AsciiEncode(rest);
    if a.Some? && b.Some? then
      EncodeAppend(line, rest);
      assert payload == [] ==> a.value + b.value == a.value + b.value + payload;
      Some(if payload != [] then a.value + b.value + payload else a.value + b.value)
    else None
  }

  /** Wire, stated as `to_bytes` computes it: the two ASCII parts, then the payload when there is one. */
  lemma WireParts(status: Status, text: string, h: Headers, payload: bytes)
    ensures var a, b := AsciiEncode(StatusLine(status, text)), AsciiEncode(HeaderBlock(h) + CRLF);
      Wire(status, text, h, payload)
        == if a.Some? && b.Some? then Some(if payload != [] then a.value + b.value + payload else a.value + b.value) else None
  {
  }

  lemma AsciiAppend(a: string, b: string)
    ensures IsAscii(a + b) <==> IsAscii(a) && IsAscii(b)
  {
    if IsAscii(a + b) {
      assert forall k :: 0 <= k < |a| ==> a[k] == (a + b)[k];
      assert forall k :: 0 <= k < |b| ==> b[k] == (a + b)[|a| + k];
    }
  }

  /** Header lines whose names and values are ASCII are ASCII. */
  lemma {:induction false} HeaderBlockAscii(h: Headers)
    requires forall j :: 0 <= j < |h| ==> IsAscii(h[j].0) && IsAscii(h[j].1)
    ensures IsAscii(HeaderBlock(h))
    decreases |h|
  {
    if h != [] {
      var e := h[|h| - 1];
      HeaderBlockAscii(h[..|h| - 1]);
      AsciiAppend(e.0, ": ");
      AsciiAppend(e.0 + ": ", e.1);
      AsciiAppend(e.0 + ": " + e.1, CRLF);
      AsciiAppend(HeaderBlock(h[..|h| - 1]), HeaderLine(e));
    }
  }

  /**
    A head whose status text and header names and values are ASCII encodes,
    so `to_bytes` does not raise on it.
   */
  lemma HeadAscii(status: Status, text: string, h: Headers)
    requires IsAscii(text)
    requires forall j :: 0 <= j < |h| ==> IsAscii(h[j].0) && IsAscii(h[j].1)
    ensures IsAscii(Head(status, text, h))
  {
    var code := NatToString(status.Code());
    assert IsAscii(code);
    AsciiAppend(ProtocolVersion, " ");
    AsciiAppend(ProtocolVersion + " ", code);
    AsciiAppend(ProtocolVersion + " " + code, " ");
    AsciiAppend(ProtocolVersion + " " + code + " ", text);
    AsciiAppend(ProtocolVersion + " " + code + " " + text, CRLF);
    HeaderBlockAscii(h);
    AsciiAppend(StatusLine(status, text), HeaderBlock(h));
    AsciiAppend(StatusLine(status, text) + HeaderBlock(h), CRLF);
  }

  /**
    The framing of the bytes sent: exactly one byte per character of the
    head, then the payload, so the byte count after the blank line is the
    payload length.
   */
  lemma WireFraming(status: Status, text: string, h: Headers, payload: bytes)
    requires Wire(status, text, h, payload).Some?
    ensures var w, n := Wire(status, text, h, payload).value, |Head(status, text, h)|;
      && |w| == n + |payload|
      && w[n..] == payload
      && forall k :: 0 <= k < n ==> w[k] as int == Head(status, text, h)[k] as int
  {
    var head := Head(status, text, h);
    EncodeAscii(head);
    var w := Wire(status, text, h, payload).value;
    assert w[..|head|] == Encode(head);
  }

  /**
    The arguments a handler passes to `HTTPResponse`: status, header
    dictionary and body. No caller in the server passes a status text.
   */
  datatype Reply = Reply(status: Status, headers: Headers, body: Body)

  /**
    The headers a response built from `reply` sends: the constructor's
    Content-Length, then `Connection: close` when the connection closes.
   */
  function SentHeaders(reply: Reply, close: bool): Headers
  {
    var h := WithContentLength(reply.headers, reply.body);
    if close then SetHeader(h, ConnectionHeader, "close") else h
  }

  /** The bytes `HTTPResponse(status, headers, body).to_bytes(close)` returns. */
  function Serialize(reply: Reply, close: bool): Option<bytes>
  {
    Wire(reply.status, StatusTextOf(reply.status, None), SentHeaders(reply, close), EncodeBody(reply.body))
  }

  /**
    What the sent headers promise the peer: a closing response says
    `Connection: close`, a kept-alive one says about Connection only what the
    handler said, and an injected Content-Length is the number of payload
    bytes, closing or not.
   */
  lemma SentHeadersPromise(reply: Reply, close: bool)
    requires DistinctKeys(reply.headers)
    ensures DistinctKeys(SentHeaders(reply, close))
    ensures close ==> Lookup(SentHeaders(reply, close), ConnectionHeader) == Some("close")
    ensures !close ==> Lookup(SentHeaders(reply, close), ConnectionHeader) == Lookup(reply.headers, ConnectionHeader)
    ensures !reply.body.NoBody? && !HasContentLength(reply.headers) ==>
              IsDecimalOf(Lookup(SentHeaders(reply, close), ContentLengthHeader).value, |EncodeBody(reply.body)|)
  {
    var h := WithContentLength(reply.headers, reply.body);
    assert ConnectionHeader != ContentLengthHeader by { assert |ConnectionHeader| != |ContentLengthHeader|; }
    if !reply.body.NoBody? && !HasContentLength(reply.headers) {
      ContentLengthInjected(reply.headers, reply.body);
    }
  }

  /**
    A text reply without handler headers, on a connection that stays open,
    is sent whenever its status text is ASCII: its one header is the length
    of its payload, and the bytes are its head and then the UTF-8 of the text.
   */
  lemma TextReplySent(status: Status, text: string, msg: string)
    requires StatusTextOf(status, None) == text && IsAscii(text)
    ensures var reply := Reply(status, [], TextBody(msg));
      && SentHeaders(reply, false) == [(ContentLengthHeader, NatToString(|Encode(msg)|))]
      && Serialize(reply, false) == Some(Encode(Head(status, text, SentHeaders(reply, false))) + Encode(msg))
  {
    var h := [(ContentLengthHeader, NatToString(|Encode(msg)|))];
    LengthHeaderOnly(status, msg);
    LengthHeaderAscii(|Encode(msg)|);
    HeadAscii(status, text, h);
  }

  /** A text reply without handler headers, kept alive, sends only its length. */
  lemma LengthHeaderOnly(status: Status, msg: string)
    ensures SentHeaders(Reply(status, [], TextBody(msg)), false) == [(ContentLengthHeader, NatToString(|Encode(msg)|))]
  {
    assert WithContentLength([], TextBody(msg)) == [(ContentLengthHeader, NatToString(|Encode(msg)|))];
  }

  lemma LengthHeaderAscii(n: nat)
    ensures var h := [(ContentLengthHeader, NatToString(n))];
      forall j :: 0 <= j < |h| ==> IsAscii(h[j].0) && IsAscii(h[j].1)
  {
    assert IsAscii(ContentLengthHeader) by {
      forall k | 0 <= k < |ContentLengthHeader| ensures ContentLengthHeader[k] < '\U{80}' { }
    }
    assert IsAscii(NatToString(n));
  }

  /**
    For an ASCII text the bytes sent are, line by line, the status line, one
    `Content-Length` line holding the number of characters of the text, the
    blank line, and the text itself.
   */
  lemma AsciiTextReplyBytes(status: Status, text: string, msg: string)
    requires StatusTextOf(status, None) == text && IsAscii(text) && IsAscii(msg)
    ensures Serialize(Reply(status, [], TextBody(msg)), false)
      == Some(Encode(StatusLine(status, text)) + Encode(HeaderLine((ContentLengthHeader, NatToString(|msg|))))
              + Encode(CRLF) + Encode(msg))
  {
    TextReplySent(status, text, msg);
    EncodeAscii(msg);
    OneHeaderBytes(status, text, (ContentLengthHeader, NatToString(|msg|)), Encode(msg));
  }

  /** The bytes of a head with one header line, followed by a payload, line by line. */
  lemma OneHeaderBytes(status: Status, text: string, e: (string, string), payload: bytes)
    ensures Encode(Head(status, text, [e])) + payload
      == Encode(StatusLine(status, text)) + Encode(HeaderLine(e)) + Encode(CRLF) + payload
  {
    var line, header := StatusLine(status, text), HeaderLine(e);
    assert [e][..0] == [];
    assert HeaderBlock([e]) == "" + header == header;
    EncodeAppend(line + header, CRLF);
    EncodeAppend(line, header);
  }

  /** The header lines of `to_bytes`, one `name: value` line per entry, in order. */
  method JoinHeaderLines(h: Headers) returns (block: string)
    ensures block == HeaderBlock(h)
  {
    block := "";
    var i := 0;
    while i < |h|
      invariant 0 <= i <= |h|
      invariant block == HeaderBlock(h[..i])
    {
      HeaderBlockSnoc(h, i);
      block := block + HeaderLine(h[i]);
      i := i + 1;
    }
    assert h[..i] == h;
  }

  /**
    The bytes `to_bytes` sends: the status line and the header part, each
    encoded as ASCII (failing on any other character), then the payload when
    there is one.
   */
  method Assemble(status: Status, statusText: string, h: Headers, payload: bytes) returns (r: Option<bytes>)
    ensures r == Wire(status, statusText, h, payload)
  {
    var responseLine := StatusLine(status, statusText);
    var responseHeaders := JoinHeaderLines(h);
    var headersPart := responseHeaders + CRLF;
    WireParts(status, statusText, h, payload);
    var line := AsciiEncode(responseLine);
    var part := AsciiEncode(headersPart);
    if line.None? || part.None? {
      return None;
    }
    var response := line.value + part.value;
    if payload != [] {
      response := response + payload;
    }
    return Some(response);
  }

  /**
    An HTTPResponse. The header dictionary is held as a value: the caller's
    dictionary is not shared with the response.
   */
  class Response {
    var status: Status
    var statusText: string
    var headers: Headers
    var body: Body
    var encodedBody: Option<bytes>

    ghost predicate Valid()
      reads this
    {
      DistinctKeys(headers) && (encodedBody.Some? ==> encodedBody.value == EncodeBody(body))
    }

    /** `HTTPResponse(status_code, headers, body, status_text)`. */
    constructor (status: Status, headers: Option<Headers>, body: Body, statusText: Option<string>)
      requires headers.Some? ==> DistinctKeys(headers.value)
      ensures Valid()
      ensures this.status == status && this.body == body
      ensures this.statusText == StatusTextOf(status, statusText)
      ensures this.headers == WithContentLength(if headers.Some? then headers.value else [], body)
      ensures encodedBody.Some? <==> this.headers != (if headers.Some? then headers.value else [])
    {
      this.status := status;
      this.statusText := StatusTextOf(status, statusText);
      var given := if headers.Some? then headers.value else [];
      this.headers := given;
      this.body := body;
      this.encodedBody := None;
      new;
      if !body.NoBody? && !HasContentLength(given) {
        EncodeTheBody();
        NoContentLengthKey(given);
        var length := NatToString(|encodedBody.value|);
        var updated := SetHeader(given, ContentLengthHeader, length);
        assert updated == given + [(ContentLengthHeader, length)];
        this.headers := updated;
      }
    }

    /** `_encode_body`: cache the payload. */
    method EncodeTheBody()
      modifies this`encodedBody
      ensures encodedBody == Some(EncodeBody(body))
    {
      match body
      case NoBody => encodedBody := Some([]);
      case BytesBody(data) => encodedBody := Some(data);
      case TextBody(text) => encodedBody := Some(Encode(text));
    }

    /**
      `to_bytes(close_connection)`: with `close` the dictionary gets
      `Connection: close` (in place if a `Connection` key exists, last
      otherwise); without it the headers are untouched. The result is the
      head in ASCII followed by the payload.
     */
    method ToBytes(close: bool) returns (r: Option<bytes>)
      requires Valid()
      modifies this`headers, this`encodedBody
      ensures Valid()
      ensures encodedBody == Some(EncodeBody(body))
      ensures headers == if close then SetHeader(old(headers), ConnectionHeader, "close") else old(headers)
      ensures r == Wire(status, statusText, headers, EncodeBody(body))
    {
      if encodedBody.None? {
        EncodeTheBody();
      }
      var payload := encodedBody.value;
      if close {
        var updated := SetHeader(headers, ConnectionHeader, "close");
        assert DistinctKeys(updated);
        headers := updated;
      }
      r := Assemble(status, statusText, headers, payload);
    }
  }
}
