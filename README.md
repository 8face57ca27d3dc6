# puny-http-server, modelled in Dafny

A model of the core of a small HTTP/1.1 server written in Python, with
proofs of what it promises. The server reads a request from a client socket
and parses it into a method, a path, a protocol, a header map with
lower-cased keys, and a body. It routes the request to a handler and sends
one response per request. It keeps the connection open until the client
goes away, a read fails, or a response says `Connection: close`.

The handlers are:

- the root page;
- `/echo/<text>`, gzip-compressed when the client accepts it;
- `/user-agent`;
- reading and writing files under a configured directory;
- a 404 fallback.

The model follows the Python code module by module:

| Dafny module | Python source | form |
|---|---|---|
| `Constants` | `app/constants.py` | datatypes, a status-text function |
| `Exceptions` | `app/exceptions.py` | an error value and its constructors |
| `HttpRequest` | `app/http_request.py` | parser functions, with `FromBytes`/`ReadHeaders` as methods with the source's header loop |
| `HttpResponse` | `app/http_response.py` | a `Response` class whose constructor injects Content-Length and whose `ToBytes` updates the headers in place and joins the header lines in a loop |
| `Router` | `app/router.py` | a `Router` class with a route sequence; `FindHandler` is the source's scan loop |
| `Handlers` | `app/handlers.py` | each handler is the reply it builds or the error it raises; file handlers work on a disk value |
| `Server` | `app/server.py` | an `HttpServer` class whose `HandleClientConnection` is the keep-alive loop over receive events |

Supporting modules model the Python library behaviour the core relies on:

- `Text`: `str.find`, `split`, `strip`, `lower`, `upper`, `repr`, `str(int)`, `startswith`.
- `Utf8`: a strict UTF-8 codec with its round trip, and ASCII encoding.
- `PosixPath`: `os.path.join`, `normpath`, `abspath`, `dirname`, `split`.
- `FileSystem`: `exists`, `isfile`, `isdir`, `open`, `mkdir`, `makedirs` over a `Disk` value.
- `Wrappers`: `Option` and `Result`.

Each method is proved against a function of its inputs. The properties of
that function are proved as lemmas. The main results are:

- the parser accepts exactly the well-formed requests, and the last duplicate header wins;
- an injected Content-Length equals the number of payload bytes;
- `to_bytes` frames the response byte for byte, and the root and 404 replies serialise to exactly their expected bytes;
- the router's first-match, 405 and fallback rules, with the sorted allowed list;
- the file handlers' status codes, when a POST is stored (`makedirs` of the parent and the write both succeed), and that a POST followed by a GET of the same path returns the stored bytes;
- a NUL in the resolved path is the only way a handler raises anything but an `HTTPException`;
- the containment check is a plain string prefix test: a sibling directory `base/name2` passes it for the directory `base/name`;
- the keep-alive decision: a 400 from a failed parse is always sent and keeps the connection open, any status of 500 or more closes it (including the 500 for an unexpected `recv` error), and each receive event gets at most one response.

Where the code departs from the obvious design, the model follows the code:

- a parse failure does not close the connection;
- a 405 has no `Allow` header;
- the start line needs only two spaces, and the protocol takes the rest of the line;
- the body is `""` when there is no blank line.

## Model

| member | source | states |
|---|---|---|
| Constants.MethodFromValue | app/constants.py:4-11 | `HTTPMethod(s)` gives a member exactly when `s` is that member's value; otherwise it fails |
| Constants.MethodEnumeration | app/constants.py:4-11 | there are exactly seven methods with pairwise distinct values, and each value maps back to its own member |
| Constants.Status.Code | app/constants.py:14-52 | every status code lies between 100 and 599 |
| Constants.CodeInjective | app/constants.py:14-52 | distinct status members have distinct codes |
| Constants.StatusText | app/constants.py:55-63 | STATUS_TEXT has a non-empty entry for exactly 200, 201, 404, 403, 500, 400 and 405, and none for 202, 301, 408 or any other member |
| Exceptions.KindStatus | app/exceptions.py:10-33 | each subclass's code has a STATUS_TEXT entry; only InternalServerError has a code of 500 or more |
| Exceptions.NewHttpError | app/exceptions.py:5-8 | the message is the caller's non-empty message, else the code's status text, else "Unknown Error"; an empty string falls back |
| Exceptions.Raise | app/exceptions.py:10-33 | a subclass fixes the status, and its default message is that status's text |
| Exceptions.SubclassDefaults | app/exceptions.py:10-33 | the codes are 400, 404, 403, 405 and 500; the default messages are "Bad Request", "Not Found", "Forbidden", "Method Not Allowed" and "Internal Server Error" |
| Text.Find | app/http_request.py:30 | `find` returns the first index where the separator occurs, or nothing when it never occurs |
| Text.Split | app/http_request.py:32 | `split(CRLF)` returns at least one piece; the pieces rejoin to the text and none contains CRLF |
| Text.SplitN | app/http_request.py:39 | `split(sep, n)` returns 1 to n+1 pieces that rejoin to the text; each piece but the last is free of `sep`, and so is the last when fewer than n splits were made |
| Text.SplitNStep | app/http_request.py:39 | the piece before the first occurrence, followed by a valid split of the rest, is the split of the whole text |
| Text.SplitNOccurs | app/http_request.py:30 | when the separator occurs, a split with a positive limit has at least two pieces |
| Text.NoEarlierOccurrence | app/http_request.py:30 | the text before the first occurrence does not contain the separator |
| Text.IndexOf | app/http_request.py:55 | the index of the first occurrence of a character that is in the text |
| Text.SplitOnceAtChar | app/http_request.py:55 | `split(":", 1)` of a line containing a colon cuts it at its first colon |
| Text.SplitOn | app/handlers.py:28 | `split(",")` returns at least one piece, and no piece holds a comma |
| Text.SplitOnAgrees | app/handlers.py:28 | splitting at a character is the same as splitting at the one-character string |
| Text.SplitOnAppend | app/handlers.py:28 | splitting `a + "," + b` at commas gives the pieces of `a` followed by the pieces of `b` |
| Text.JoinSplitOn | app/handlers.py:28 | joining the pieces with the separator gives the text back |
| Text.TrimStart | app/http_request.py:57 | only leading white space is removed, all of it, and the result is a suffix of the input |
| Text.TrimEnd | app/http_request.py:57 | only trailing white space is removed, all of it, and the result is a prefix of the input |
| Text.StripBounds | app/http_request.py:57 | `strip()` returns a slice of the input that neither starts nor ends with white space |
| Text.LowerCharFacts | app/http_request.py:57 | lower-casing leaves no ASCII capital and keeps white space as white space |
| Text.LowerIdempotent | app/http_request.py:63-65 | lower-casing twice is the same as lower-casing once |
| Text.UpperAppend | app/http_request.py:44 | `upper()` distributes over concatenation |
| Text.NatToString | app/http_response.py:23 | `str(n)` is a non-empty string of decimal digits with no leading zero; it has one digit exactly when n < 10 |
| Text.DecimalRoundTrip | app/http_response.py:23 | reading back the decimal text of n gives n |
| Text.Repr | app/http_request.py:41 | `repr` of a string is enclosed in one kind of quote, single or double |
| Utf8.EncodeChar | app/http_response.py:33 | a character is encoded in one to four bytes; it takes one byte exactly when it is ASCII |
| Utf8.Encode | app/http_response.py:33 | the UTF-8 encoding has at least one byte per character |
| Utf8.DecodeFirstEncodeChar | app/http_request.py:25 | the strict decoder reads back the first encoded character, whatever bytes follow |
| Utf8.DecodeEncode | app/http_request.py:25 | strict UTF-8 decoding undoes encoding for every text |
| Utf8.EncodeAppend | app/http_response.py:33 | encoding distributes over concatenation |
| Utf8.EncodeFour | app/http_response.py:60 | encoding four texts one by one and joining the bytes is encoding the joined text |
| Utf8.EncodeAscii | app/http_response.py:60 | an ASCII text is encoded byte for byte |
| Utf8.AsciiEncode | app/http_response.py:60 | `encode('ascii')` succeeds exactly for ASCII text, and then gives the UTF-8 bytes |
| PosixPath.LeadingSlashes | app/handlers.py:48 | `normpath` keeps no leading slash for a relative path; it keeps exactly two leading slashes as "//", and turns one or three or more into "/" |
| PosixPath.NormPath | app/handlers.py:48 | `normpath` never returns an empty path |
| PosixPath.NormPathAbsolute | app/handlers.py:48 | `normpath` of an absolute path is its leading slashes followed by its kept components joined by "/" |
| PosixPath.ComponentsOfAbsolute | app/handlers.py:48 | normalising an absolute path keeps only proper names, so it never climbs above the root |
| PosixPath.CollapseAppend | app/handlers.py:48 | collapsing two runs of pieces equals collapsing the second from the result of the first |
| PosixPath.CollapseDescends | app/handlers.py:48 | pieces without ".." only add components |
| PosixPath.AnchorOfJoin | app/handlers.py:48 | `abspath(join(dir, rel))` anchors the same path as joining `rel` under the anchored `dir` |
| PosixPath.DescendantInside | app/handlers.py:47-52 | a relative path with no ".." component, resolved under the directory, passes the containment test |
| PosixPath.ParentOutside | app/handlers.py:47-52 | the parent of any directory other than the root fails the containment test |
| PosixPath.SiblingNormalises | app/handlers.py:47-52 | "../" + name + suffix under `base/name` normalises to the directory's own path followed by suffix |
| PosixPath.SiblingPrefixAccepted | app/handlers.py:51 | that sibling path lies outside the directory yet passes the `startswith` test |
| PosixPath.AfterLast | app/handlers.py:92 | the position after the last slash: nothing after it is a slash |
| PosixPath.PathHead | app/handlers.py:92 | the head `dirname` returns is a prefix of the path ending at or before its last slash |
| PosixPath.SplitPath | app/handlers.py:92 | `split` returns the last component, which holds no slash, and a head shorter than the path whenever that component is non-empty |
| FileSystem.ReadFile | app/handlers.py:61-63 | a read succeeds exactly on a regular file the system does not refuse, and returns its bytes; a NUL in the path raises ValueError |
| FileSystem.WriteFile | app/handlers.py:93-94 | a write succeeds exactly when the path is not a directory, is not refused and its parent is a directory; only that file's contents change |
| FileSystem.MakeDir | app/handlers.py:92 | `mkdir` succeeds exactly on a new path whose parent is a directory, and adds only that directory |
| FileSystem.MakeLastOnlyAdds | app/handlers.py:92 | the last step of `makedirs` only adds the named directory, and the name is a directory afterwards |
| FileSystem.MakeDirsOnlyAddsDirectories | app/handlers.py:92 | on success, `makedirs(exist_ok=True)` changes no file and no refusal, keeps every directory, and leaves the target a directory unless its last component is "." |
| FileSystem.MakeDirsAddsNoLonger | app/handlers.py:92 | on success, `makedirs` creates no directory whose path is longer than the target |
| FileSystem.MakeLastCreates | app/handlers.py:92 | the last `mkdir` step succeeds on an existing directory, or on a new path that is not refused and whose parent is a directory |
| FileSystem.MakeDirsSucceeds | app/handlers.py:92 | `makedirs(exist_ok=True)` succeeds and leaves the target a directory when the target is already a directory, or when it is neither a file nor refused and its parent is a directory or can be made in the same way |
| FileSystem.MakeDirsNulOnlyFromNul | app/handlers.py:92 | `makedirs` raises ValueError only for a path holding a NUL |
| HttpRequest.HeadAndBody | app/http_request.py:30 | the text is split at the first blank line; without one, the body is "" and the whole text is the header part |
| HttpRequest.SplitStartLine | app/http_request.py:37-41 | the start line splits into method, path and protocol at its first two spaces, and the protocol keeps any further spaces; it fails exactly when the line has fewer than two spaces |
| HttpRequest.HeaderFold | app/http_request.py:49-59 | the header loop fails only with a 400 |
| HttpRequest.ParseLines | app/http_request.py:36-61 | parsing the lines fails only with a 400 |
| HttpRequest.ParseText | app/http_request.py:29-61 | parsing the text fails only with a 400 |
| HttpRequest.Parse | app/http_request.py:21-61 | `from_bytes` fails only with a 400 |
| HttpRequest.FromBytes | app/http_request.py:21-61 | the method computes the request `Parse` specifies, or the same error |
| HttpRequest.ReadHeaders | app/http_request.py:49-59 | the header loop, with its early break and raise, computes the header map `HeaderFold` specifies |
| HttpRequest.HeaderLineSplit | app/http_request.py:55-57 | splitting a header line once at ":" gives the two sides its stored entry is made from |
| HttpRequest.HeaderFoldStep | app/http_request.py:51-57 | one turn of the loop stores the line's entry and goes on with the next line |
| HttpRequest.Section | app/http_request.py:51-53 | the header section is the lines before the first empty line |
| HttpRequest.Entries | app/http_request.py:55-57 | each line of the section gives exactly one entry |
| HttpRequest.EntryAt | app/http_request.py:55-57 | the j-th entry is the key and value of the j-th header line |
| HttpRequest.HeaderFoldStores | app/http_request.py:49-59 | the loop succeeds exactly when every line of the header section has a colon, and then it stores the lines' entries in order |
| HttpRequest.StoreUntouched | app/http_request.py:57 | a key no header line carries is not in the map |
| HttpRequest.StoreLastWins | app/http_request.py:57 | for a duplicated key, the value of its last line wins |
| HttpRequest.StoreKeys | app/http_request.py:57 | the keys stored are exactly the keys of the header lines |
| HttpRequest.HeaderEntryWellFormed | app/http_request.py:55-57 | every stored key is stripped, lower-case and free of colons, and every stored value is stripped |
| HttpRequest.HeaderFoldWellFormed | app/http_request.py:49-59 | the header map the loop builds holds only such entries |
| HttpRequest.ParseOutcome | app/http_request.py:21-61 | `from_bytes` succeeds exactly for UTF-8 input whose start line has two spaces, whose upper-cased method is one of the seven, and whose header lines all have a colon. The request then carries that method, path, protocol and body, and the entries stored in order |
| HttpRequest.GetHeaderIgnoresCase | app/http_request.py:63-65 | `get_header` gives the same answer for names that are equal once lower-cased |
| HttpRequest.ShouldCloseConnection | app/http_request.py:67-70 | true exactly when a `connection` header is present and its lower-cased value is "close" |
| HttpResponse.EncodeBody | app/http_response.py:25-39 | no body encodes to no bytes, bytes are kept as they are, and a text encodes to UTF-8 bytes that decode back to it |
| HttpResponse.KeyIndex | app/http_response.py:20 | finds the first position holding the key, or nothing when no position holds it |
| HttpResponse.SetHeader | app/http_response.py:52 | `d[k] = v`: an existing key keeps its position and takes the new value, a new key is appended last, and every other key keeps its value |
| HttpResponse.SetHeaderIdempotent | app/http_response.py:52 | assigning the same header twice is the same as assigning it once |
| HttpResponse.StatusTextOf | app/http_response.py:14 | the caller's non-empty text, else the STATUS_TEXT entry, else "Unknown"; never empty |
| HttpResponse.ContentLengthInjected | app/http_response.py:20-23 | without a Content-Length in any case, a body gets `Content-Length` appended last, and its value is the decimal length of the encoded body |
| HttpResponse.NoContentLengthKey | app/http_response.py:20 | with no header named content-length in any case, the key `Content-Length` is absent |
| HttpResponse.ContentLengthRespected | app/http_response.py:20 | a Content-Length supplied in any case is left untouched, and a response without body gets none |
| HttpResponse.Wire | app/http_response.py:41-65 | the bytes are the ASCII status line, header lines and blank line, then the payload; it fails exactly when the head is not ASCII |
| HttpResponse.WireParts | app/http_response.py:58-63 | the bytes are the two ASCII-encoded parts, followed by the payload only when it is non-empty |
| HttpResponse.AsciiAppend | app/http_response.py:60 | a concatenation is ASCII exactly when both parts are |
| HttpResponse.HeaderBlockAscii | app/http_response.py:53-56 | header lines whose names and values are ASCII are ASCII |
| HttpResponse.HeadAscii | app/http_response.py:47-60 | a head whose status text, header names and header values are ASCII encodes, so `to_bytes` does not raise on it |
| HttpResponse.WireFraming | app/http_response.py:58-63 | the output has one byte per character of the head, then exactly the payload, so the count of bytes after the blank line is the payload length |
| HttpResponse.SentHeadersPromise | app/http_response.py:50-56 | a closing response says `Connection: close`; without close, the Connection header is what the handler said; an injected Content-Length equals the payload length either way |
| HttpResponse.TextReplySent | app/http_response.py:19-65 | a text reply without handler headers, kept alive, is always sent when its status text is ASCII, whatever the text: its one header is Content-Length with the payload length, and the bytes are its head and then the UTF-8 of the text |
| HttpResponse.LengthHeaderOnly | app/http_response.py:19-23 | such a reply, kept alive, sends exactly one header: the injected Content-Length holding the payload length |
| HttpResponse.AsciiTextReplyBytes | app/http_response.py:41-65 | for an ASCII text the bytes are, line by line, the status line, one Content-Length line holding the number of characters, the blank line, and the text |
| HttpResponse.OneHeaderBytes | app/http_response.py:47-60 | a head with one header line, followed by a payload, is sent as the status line, that header line and the blank line, in that order, and then the payload |
| HttpResponse.JoinHeaderLines | app/http_response.py:54-56 | the loop writes one `name: value` line per header, in insertion order |
| HttpResponse.Assemble | app/http_response.py:47-63 | the bytes `to_bytes` builds from the status line, the header lines and the payload are the `Wire` bytes |
| HttpResponse.Response.constructor | app/http_response.py:7-23 | sets status, status text and body; the headers are the caller's plus any injected Content-Length, and the payload is cached exactly when Content-Length was injected |
| HttpResponse.Response.EncodeTheBody | app/http_response.py:25-39 | `_encode_body` caches the body's encoding |
| HttpResponse.Response.ToBytes | app/http_response.py:41-65 | with close, the headers get `Connection: close` in place or appended last; without close, they are unchanged; the result is the `Wire` bytes of the new headers and the payload |
| Handlers.RootResponseBytes | app/handlers.py:15-18 | the root response serialises to exactly `HTTP/1.1 200 OK\r\n\r\n` |
| Handlers.NotFoundResponseBytes | app/handlers.py:105-107 | the 404 reply serialises to exactly `HTTP/1.1 404 Not Found\r\nContent-Length: 19\r\n\r\nResource not found.`, and line by line to the encodings of its status line, its length line, the blank line and its text |
| Handlers.AcceptsGzipOneToken | app/handlers.py:26-28 | a value without commas accepts gzip exactly when, stripped, it is "gzip"; matching is case-sensitive |
| Handlers.AcceptsGzipList | app/handlers.py:26-28 | a comma-separated list accepts gzip exactly when one of its parts does |
| Handlers.MapSeqAppend | app/handlers.py:26-28 | the list comprehension over two lists, one after the other, is the comprehension over each joined in order |
| Handlers.EchoReply | app/handlers.py:20-33 | 200 and `Content-Type: text/plain`. When gzip is accepted, the body is the compressed UTF-8 of the path after "/echo/", with `Content-Encoding: gzip`; otherwise the body decodes back to that path suffix and there is no Content-Encoding |
| Handlers.EchoHeadersLackContentLength | app/handlers.py:24-30 | echo sets no Content-Length of its own |
| Handlers.EchoContentLength | app/handlers.py:29-33 | echo's Content-Length is the length of the body sent, compressed or not |
| Handlers.UserAgentReply | app/handlers.py:35-40 | 200, text/plain, and the body is the `user-agent` value, or "Unknown" when there is none |
| Handlers.RunEffects | app/handlers.py:15-107 | only the POST file handler changes the disk; every reply has distinct headers and a status of 200, 201 or 404; only POST with a NUL in the resolved path raises a non-HTTP exception |
| Handlers.DirNameNoNul | app/handlers.py:92 | the parent of a path without NUL characters has none either |
| Handlers.FileHandlersNeedDirectory | app/handlers.py:44-45 | without a directory, both file handlers raise 500 and leave the disk alone |
| Handlers.FileGetOutcome | app/handlers.py:42-70 | GET replies 200 with the file's bytes as octet-stream exactly for a readable file that passes the prefix test. It gives 403 exactly when the test fails, 404 exactly for a missing path or a non-file, and 500 exactly for a refused read; it never raises anything else |
| Handlers.ServeFileOutcome | app/handlers.py:51-70 | the same outcomes, for an already resolved path |
| Handlers.FilePostOutcome | app/handlers.py:72-103 | POST gives 403 exactly when the prefix test fails, and then leaves the disk alone. It gives 201 with an empty body exactly when the prefix test passes and both `makedirs` and the write succeed, storing the UTF-8 of the body at the path and touching no other file. Otherwise it gives a 500, or a non-HTTP exception only when the path holds a NUL |
| Handlers.StoreFileOutcome | app/handlers.py:90-103 | the store gives 201 exactly when `makedirs` of the parent and the write both succeed, and then only the target file changes; otherwise a 500 with no file changed. Refusals are unchanged and no directory is lost |
| Handlers.StoreFileSucceeds | app/handlers.py:90-98 | a path with no NUL and no trailing slash, neither a directory nor refused, whose parent `makedirs` can make, is stored: 201, and the file holds the data |
| Handlers.FilePostSucceeds | app/handlers.py:72-98 | a POST whose path passes the prefix test and can be stored in that way gets 201, and the file holds the UTF-8 of the body |
| Handlers.StoredFileReadsBack | app/handlers.py:90-98 | after a successful store, the file exists, is a regular file and reads back as the stored bytes |
| Handlers.GetOfReadableFile | app/handlers.py:54-66 | a GET of a path that passes the prefix test and holds a readable file replies 200 with its bytes |
| Handlers.PostThenGet | app/handlers.py:72-98 | after a 201 from POST, a GET of the same path replies 200 with exactly the UTF-8 of the posted body |
| Handlers.CreatedIsEmpty | app/handlers.py:98 | the 201 says `Content-Length: 0` and carries no payload |
| Handlers.ParentDirectoryForbidden | app/handlers.py:47-52 | "/files/.." is refused with 403 by GET and by POST unless the directory is the root |
| Handlers.PlainPathNotForbidden | app/handlers.py:47-52 | a relative path with no ".." component is never refused with 403 |
| Handlers.PrefixTestPassed | app/handlers.py:51-52 | a path that passes the prefix test is not refused with 403, by GET or by POST |
| Handlers.SiblingNotForbidden | app/handlers.py:51-52 | "/files/../" + name + suffix under the directory `base/name` is not refused with 403, although it lies outside the directory |
| Router.FirstHit | app/router.py:58-65 | the earliest route whose pattern matches the path and whose method is the request's, or nothing when no route has both |
| Router.AllowedInExactly | app/router.py:58-62 | a method is in the allowed set exactly when some route with that method matches the path |
| Router.NamesIn | app/router.py:71 | a method's name is listed exactly when the method is both in the order and allowed |
| Router.SortOrderSorted | app/router.py:71 | the seven method names, in this fixed order, increase strictly in string order |
| Router.StrLessTransitive | app/router.py:71 | Python's string order is transitive |
| Router.SortedFromAdjacent | app/router.py:71 | a list that increases at each step increases between any two positions |
| Router.NamesInSorted | app/router.py:71 | keeping some names of a sorted list keeps them sorted |
| Router.NamesInAbove | app/router.py:71 | a bound below every name of a list stays below every name kept from it |
| Router.NameInjective | app/constants.py:4-11 | two methods with the same name are the same method |
| Router.SortedNamesExact | app/router.py:71 | `sorted(allowed_methods)` lists each allowed method's name once, in strictly increasing order, and no other name |
| Router.EarliestRouteWins | app/router.py:58-65 | the earliest route serving both the path and the method decides |
| Router.MethodNotAllowedExactly | app/router.py:67-72 | lookup fails exactly when some route matches the path and none of the matching routes has the method |
| Router.NotAllowedError | app/router.py:67-72 | the failure is a 405 whose message names the method, the path and the sorted allowed methods |
| Router.PathKnown | app/router.py:58-67 | some method is allowed exactly when some route matches the path |
| Router.UnknownPathGoesToDefault | app/router.py:74-75 | a path no route matches goes to the default handler, whatever the method |
| Router.LaterRoutesDoNotOverride | app/router.py:26-39 | registering more routes never changes a handler that an earlier route already serves |
| Router.Router.constructor | app/router.py:21-24 | a new router has no routes and the not-found handler as its default |
| Router.Router.AddRoute | app/router.py:26-39 | the route is appended after every earlier route |
| Router.Router.FindHandler | app/router.py:41-75 | the scan returns what `Resolve` specifies, and changes nothing |
| Server.AnswerFacts | app/server.py:88-99 | the connection closes exactly when the reply's status is 500 or more or the request asked to close. Every reply has distinct headers, and a reply of 500 or more is an error reply with no headers |
| Server.CloseDecision | app/server.py:53-99 | a cycle closes exactly when its reply's status is 500 or more or the parsed request asked to close; a parse failure never closes by itself |
| Server.FailureReplies | app/server.py:88-93 | a parse failure gets a 400 with the parser's message; a routing failure gets the 405 with its message and no headers (no Allow); neither touches the disk |
| Server.ParseFailureCycle | app/server.py:53-93 | a request that fails to parse gets its 400, keeps the connection open and leaves the disk alone |
| Server.CycleReplies | app/server.py:55-99 | every reply has distinct headers, a reply of 500 or more has no headers, and the disk changes only when the request is routed to the POST file handler |
| Server.CrashReplyText | app/server.py:94-99 | an unexpected exception is answered with 500, no headers, and the body "Internal Server Error" |
| Server.SilentEnd | app/server.py:57-87 | an empty read, a timeout, a reset or a broken pipe first sends nothing and leaves the disk alone |
| Server.ClosingErrorReplySent | app/server.py:94-104 | an error reply with an ASCII status text is sent on a closing connection: its headers are its payload length and `Connection: close`, and the bytes are its head and then the UTF-8 of its message |
| Server.CrashResponseSent | app/server.py:94-104 | the 500 reply to an unexpected exception is sent on a closing connection, with the payload length and `Connection: close` as its headers and "Internal Server Error" as its payload |
| Server.BadRequestSent | app/server.py:88-104 | a 400 reply is always sent on a connection that stays open, whatever its message: its one header is the payload length, and the bytes are its head and then the UTF-8 of the message |
| Server.FailedTurn | app/server.py:94-99 | a `recv` that raises another exception is answered with the 500 reply and closes the connection, leaving the disk alone |
| Server.RecvFailureAnswered | app/server.py:55-115 | after a `recv` that raises an exception other than a timeout, a reset or a broken pipe, the 500 reply is sent and is the last thing sent; the disk is unchanged |
| Server.OneResponsePerCycle | app/server.py:101-115 | the connection sends at most one response per receive event |
| Server.BadRequestKeepsAlive | app/server.py:53-115 | a request that fails to parse always gets its 400 sent, since that serialisation cannot fail, and the next event is served as if the connection were fresh |
| Server.ServerErrorCloses | app/server.py:93-115 | a reply of 500 or more is the last response sent, and it says `Connection: close` |
| Server.SessionStep | app/server.py:50-115 | one turn of the loop: a cycle, or the answer to a failed `recv`; then stop on close or on an unencodable reply, else continue |
| Server.SessionStop | app/server.py:57-87 | the loop ends without sending when the events run out, or when the next read brings no data, times out, is reset or hits a broken pipe |
| Server.Send | app/server.py:101-104 | building the response and calling `to_bytes(close_connection)` gives the `Serialize` bytes |
| Server.HttpServer.constructor | app/server.py:21-36 | keeps the directory; uses the given router, or a fresh default router when none is given |
| Server.HttpServer.Respond | app/server.py:51-99 | the body of one keep-alive cycle computes the reply, close flag and disk that `Cycle` specifies |
| Server.HttpServer.HandleClientConnection | app/server.py:43-124 | the keep-alive loop sends exactly the responses `Session` specifies, in order, and leaves the disk it specifies |

## Left out

- The listening socket, threads and the accept loop (`start`, `stop`, `_is_running`, host and port) are left out. They are concurrency and I/O plumbing.
- Logging and the `print` calls in the file handlers are left out. They only write diagnostics.
- `app/main.py` is not part of this model. It is an early socket stub that the server replaces.
- Server.HttpServer.HandleClientConnection: the socket is a sequence of receive events. Each `Received` event is the result of one `recv` of at most 2048 bytes, and the timeout, reset and broken-pipe errors are events of their own. Any other exception `recv` raises is the `RecvFailed` event. The socket timeout value, `shutdown` and `close` in the `finally` block are not modelled. A failing `sendall` is not modelled: the bytes are appended to the output sequence.
- Handlers.Run: the only non-HTTP exception a handler is modelled to raise is the `ValueError` for a resolved path holding a NUL. Out-of-memory and other interpreter errors are not modelled.
- The gzip algorithm is a parameter (`gzip: bytes -> bytes`). Compression itself, as RFC 1952 defines it, is not modelled.
- The file system is the `Disk` value. It holds file contents by path, a set of directories, and a set of paths the operating system refuses. It has no symbolic links and no permissions beyond that set. It treats "//x" and "/x" as different paths, although POSIX resolves both to the same file.
- FileSystem.MakeDirs: when `makedirs` fails partway, the directories it already created stay on a real disk, but the model returns the disk as it was. Python's `makedirs` ignores a `FileExistsError` from its recursive call on the parent, while the model passes on every error of that call. The outcome is the same: the call is made only when the parent does not exist, so on a disk nothing else changes it cannot raise `FileExistsError`, and any other failure is an `OSError` that gives the same 500.
- The working directory that `os.path.abspath` reads is the parameter `cwd`.
- Router.Pattern: a route's regular expression is either an exact path or a fixed prefix followed by anything. Python regex semantics (including `$` matching before a trailing newline) are not modelled, so the `re.error` branch of `add_route` cannot occur.
- Text.LowerChar: only ASCII capitals are lower-cased. Python lower-cases all Unicode capitals, so a non-ASCII header key can differ from what Python would store.
- Text.UpperChar: only the characters whose upper-case form is entirely ASCII are mapped, since only those can make up a method name. Other characters are kept, which never changes whether a method is accepted.
- Text.Repr: non-ASCII characters other than U+0080 to U+00A0 and U+00AD count as printable, so the message of a 400 for an unusual start line or header line can differ from Python's `repr`.
- HttpResponse.EncodeBody: the `'replace'` fallback of `_encode_body` and the branch for non-str, non-bytes bodies are not modelled. Text in this model is made of Unicode scalar values, so strict encoding never fails, and every caller passes `None`, `str` or `bytes`.
- The empty-request check in `from_bytes` (app/http_request.py:33-34) cannot fail, because `split` always returns at least one piece. The model has no branch for it.
- Router.Router.FindHandler: `allowed_methods` holds method members rather than their string values. This is equivalent, because a method's value is its name, and `NamesIn` renders the names.
- The `__repr__` methods are left out. They are used only for logging.
