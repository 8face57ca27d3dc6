/**
  The fixed vocabulary of the server (app/constants.py): request methods,
  status codes, the status-text table, header names, content types and the
  framing constants.
 */
module Constants {
  import opened Wrappers

  /** The request methods the server accepts (HTTPMethod). */
  datatype Method = GET | POST | PUT | DELETE | HEAD | OPTIONS | PATCH

  /** Every method, in declaration order. */
  const AllMethods: seq<Method> := [GET, POST, PUT, DELETE, HEAD, OPTIONS, PATCH]

  /** The value of a method member, which is its own upper-case name. */
  function MethodName(m: Method): string
  {
    match m
    case GET => "GET"
    case POST => "POST"
    case PUT => "PUT"
    case DELETE => "DELETE"
    case HEAD => "HEAD"
    case OPTIONS => "OPTIONS"
    case PATCH => "PATCH"
  }

  /**
    `HTTPMethod(value)`: the member whose value is exactly `s`, or None where
    Python raises ValueError.
   */
  function MethodFromValue(s: string): (r: Option<Method>)
    ensures forall m :: r == Some(m) <==> MethodName(m) == s
  {
    if s == "GET" then Some(GET)
    else if s == "POST" then Some(POST)
    else if s == "PUT" then Some(PUT)
    else if s == "DELETE" then Some(DELETE)
    else if s == "HEAD" then Some(HEAD)
    else if s == "OPTIONS" then Some(OPTIONS)
    else if s == "PATCH" then Some(PATCH)
    else None
  }

  /** The enumeration has seven distinct members, each named by its own value. */
  lemma MethodEnumeration()
    ensures |AllMethods| == 7
    ensures forall m :: m in AllMethods
    ensures forall i, j :: 0 <= i < j < |AllMethods| ==> MethodName(AllMethods[i]) != MethodName(AllMethods[j])
    ensures forall m :: MethodFromValue(MethodName(m)) == Some(m)
  {
    forall m ensures m in AllMethods {
      match m
      case GET => assert AllMethods[0] == m;
      case POST => assert AllMethods[1] == m;
      case PUT => assert AllMethods[2] == m;
      case DELETE => assert AllMethods[3] == m;
      case HEAD => assert AllMethods[4] == m;
      case OPTIONS => assert AllMethods[5] == m;
      case PATCH => assert AllMethods[6] == m;
    }
  }

  /** The status codes the server knows (HTTPStatus). */
  datatype Status =
    | CONTINUE | SWITCHING_PROTOCOLS | PROCESSING
    | OK | CREATED | ACCEPTED | NO_CONTENT
    | MOVED_PERMANENTLY | FOUND | SEE_OTHER | NOT_MODIFIED
    | BAD_REQUEST | UNAUTHORIZED | FORBIDDEN | NOT_FOUND | METHOD_NOT_ALLOWED
    | REQUEST_TIMEOUT | CONFLICT | LENGTH_REQUIRED | PAYLOAD_TOO_LARGE
    | URI_TOO_LONG | UNSUPPORTED_MEDIA_TYPE | TOO_MANY_REQUESTS
    | INTERNAL_SERVER_ERROR | NOT_IMPLEMENTED | BAD_GATEWAY
    | SERVICE_UNAVAILABLE | GATEWAY_TIMEOUT | HTTP_VERSION_NOT_SUPPORTED
  {
    /** The integer value of the member. */
    function Code(): (c: nat)
      ensures 100 <= c < 600
    {
      match this
      case CONTINUE => 100
      case SWITCHING_PROTOCOLS => 101
      case PROCESSING => 102
      case OK => 200
      case CREATED => 201
      case ACCEPTED => 202
      case NO_CONTENT => 204
      case MOVED_PERMANENTLY => 301
      case FOUND => 302
      case SEE_OTHER => 303
      case NOT_MODIFIED => 304
      case BAD_REQUEST => 400
      case UNAUTHORIZED => 401
      case FORBIDDEN => 403
      case NOT_FOUND => 404
      case METHOD_NOT_ALLOWED => 405
      case REQUEST_TIMEOUT => 408
      case CONFLICT => 409
      case LENGTH_REQUIRED => 411
      case PAYLOAD_TOO_LARGE => 413
      case URI_TOO_LONG => 414
      case UNSUPPORTED_MEDIA_TYPE => 415
      case TOO_MANY_REQUESTS => 429
      case INTERNAL_SERVER_ERROR => 500
      case NOT_IMPLEMENTED => 501
      case BAD_GATEWAY => 502
      case SERVICE_UNAVAILABLE => 503
      case GATEWAY_TIMEOUT => 504
      case HTTP_VERSION_NOT_SUPPORTED => 505
    }
  }

  /** Distinct members have distinct codes. */
  lemma CodeInjective(s: Status, t: Status)
    ensures s.Code() == t.Code() ==> s == t
  {
  }

  /** The members that STATUS_TEXT has an entry for. */
  const TabulatedStatuses: set<Status> :=
    {OK, CREATED, NOT_FOUND, FORBIDDEN, INTERNAL_SERVER_ERROR, BAD_REQUEST, METHOD_NOT_ALLOWED}

  /**
    STATUS_TEXT.get(status): an entry for exactly seven members; any other
    member, 202 or 301 or 408 among them, has none.
   */
  function StatusText(s: Status): (r: Option<string>)
    ensures r.Some? <==> s in TabulatedStatuses
    ensures r.Some? ==> r.value != []
  {
    match s
    case OK => Some("OK")
    case CREATED => Some("Created")
    case NOT_FOUND => Some("Not Found")
    case FORBIDDEN => Some("Forbidden")
    case INTERNAL_SERVER_ERROR => Some("Internal Server Error")
    case BAD_REQUEST => Some("Bad Request")
    case METHOD_NOT_ALLOWED => Some("Method Not Allowed")
    case _ => None
  }

  // Header names (HTTPHeader), in their canonical spelling.
  const ContentTypeHeader := "Content-Type"
  const ContentLengthHeader := "Content-Length"
  const ContentEncodingHeader := "Content-Encoding"
  const UserAgentHeader := "User-Agent"
  const AcceptEncodingHeader := "Accept-Encoding"
  const ConnectionHeader := "Connection"
  const HostHeader := "Host"
  const LocationHeader := "Location"

  // Content types (ContentType).
  const TextPlain := "text/plain"
  const ApplicationOctetStream := "application/octet-stream"
  const ApplicationJson := "application/json"
  const TextHtml := "text/html"

  /** The line terminator of the wire format. */
  const CRLF := "\r\n"

  /** The protocol version written on every status line. */
  const ProtocolVersion := "HTTP/1.1"
}
