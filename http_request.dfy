/**
  The request side of the message layer (app/http_request.py): parsing the
  bytes of one request into a method, a path, a protocol, a header map with
  lower-cased keys and a body, or failing with BadRequest.
 */
module HttpRequest {
  import opened Wrappers
  import opened Text
  import opened Utf8
  import opened Constants
  import opened Exceptions

  /**
    A parsed request (HTTPRequest). `verb` is its `method` (a keyword in
    Dafny). Header keys are lower-cased by the parser.
   */
  datatype Request = Request(
    verb: Method,
    path: string,
    protocol: string,
    headers: map<string, string>,
    body: string)

  /** The blank line that ends the header section. */
  const BlankLine := CRLF + CRLF

  /**
    The header part and the body of the request text: the text is split at
    the first blank line, and without one the whole text is the header part
    and the body is empty.
   */
  function HeadAndBody(text: string): (r: (string, string))
    ensures !Contains(text, BlankLine) ==> r == (text, "")
    ensures Contains(text, BlankLine) ==>
      var i := Find(text, BlankLine).value;
      r.0 == text[..i] && r.1 == text[i + |BlankLine|..]
  {
    if Contains(text, BlankLine) then
      var parts := SplitN(text, BlankLine, 1);
      SplitNOccurs(text, BlankLine, 1);
      assert parts[1] == text[Find(text, BlankLine).value + |BlankLine|..];
      (parts[0], parts[1])
    else (text, "")
  }

  /**
    The start line split at its first two spaces into method, path and
    protocol (`split(" ", 2)` unpacked into three names), or None when the
    line has fewer than two spaces. The protocol keeps any further spaces.
   */
  function SplitStartLine(line: string): (r: Option<(string, string, string)>)
    ensures r.Some? ==>
      && line == r.value.0 + " " + r.value.1 + " " + r.value.2
      && ' ' !in r.value.0 && ' ' !in r.value.1
    ensures r.None? <==> forall i, j :: 0 <= i < j < |line| ==> line[i] != ' ' || line[j] != ' '
  {
    var parts := SplitN(line, " ", 2);
    if |parts| == 3 then
      TwoSpaces(line, parts);
      Some((parts[0], parts[1], parts[2]))
    else
      OnlyOneSpace(line, parts);
      None
  }

  /** Three pieces of a split at " ", the first two without a space, rebuild the line around two spaces. */
  lemma TwoSpaces(line: string, parts: seq<string>)
    requires |parts| == 3 && Join(parts, " ") == line
    requires !Contains(parts[0], " ") && !Contains(parts[1], " ")
    ensures line == parts[0] + " " + parts[1] + " " + parts[2]
    ensures ' ' !in parts[0] && ' ' !in parts[1]
    ensures exists i, j :: 0 <= i < j < |line| && line[i] == ' ' && line[j] == ' '
  {
    ContainsChar(parts[0], ' ');
    ContainsChar(parts[1], ' ');
    assert Join(parts[1..], " ") == parts[1] + " " + parts[2];
    var i, j := |parts[0]|, |parts[0]| + 1 + |parts[1]|;
    assert line[i] == ' ' && line[j] == ' ';
  }

  /** Pieces of a split at " " with at most two pieces, none holding a space, leave at most one space. */
  lemma OnlyOneSpace(line: string, parts: seq<string>)
    requires 1 <= |parts| <= 2 && Join(parts, " ") == line
    requires forall k :: 0 <= k < |parts| ==> !Contains(parts[k], " ")
    ensures forall i, j :: 0 <= i < j < |line| ==> line[i] != ' ' || line[j] != ' '
  {
    ContainsChar(parts[0], ' ');
    ContainsChar(parts[|parts| - 1], ' ');
    if |parts| == 1 {
      assert line == parts[0];
    } else {
      assert line == parts[0] + " " + parts[1];
      SpaceBetween(parts[0], parts[1]);
    }
  }

  /** Joining two texts without spaces around one space leaves the joining space as the only one. */
  lemma SpaceBetween(p: string, q: string)
    requires ' ' !in p && ' ' !in q
    ensures var line := p + " " + q; forall i :: 0 <= i < |line| && i != |p| ==> line[i] != ' '
  {
    var line := p + " " + q;
    forall i | 0 <= i < |line| && i != |p| ensures line[i] != ' ' {
      if i < |p| {
        assert line[i] == p[i];
      } else {
        assert line[i] == q[i - |p| - 1];
      }
    }
  }

  /** The key and value of a header line: split at the first colon, both stripped, the key lower-cased. */
  function HeaderEntry(line: string): (string, string)
    requires ':' in line
  {
    var i := IndexOf(line, ':');
    Entry(line[..i], line[i + 1..])
  }

  /** The entry stored for the text `raw` before a colon and the text `rest` after it. */
  function Entry(raw: string, rest: string): (string, string)
  {
    (Lower(Strip(raw)), Strip(rest))
  }

  /**
    The header loop of `from_bytes` over the lines after the start line,
    starting from the map `acc`: it stops at the first empty line and fails on
    the first line without a colon; a later line with the same key replaces
    the earlier value.
   */
  function HeaderFold(acc: map<string, string>, lines: seq<string>): (r: Result<map<string, string>, HttpError>)
    ensures r.Err? ==> r.error.status == BAD_REQUEST
    decreases |lines|
  {
    if lines == [] || lines[0] == "" then Ok(acc)
    else if ':' !in lines[0] then
      Err(Raise(BadRequest, Some("Malformed header line: " + Repr(lines[0]))))
    else
      var (k, v) := HeaderEntry(lines[0]);
      HeaderFold(acc[k := v], lines[1..])
  }

  /**
    A request from the lines of its header part and its body: the start line
    must split at its first two spaces into method, path and protocol (the
    protocol may itself contain spaces), and the method's upper-case form must
    be one of the seven.
   */
  function ParseLines(lines: seq<string>, body: string): (r: Result<Request, HttpError>)
    requires |lines| >= 1
    ensures r.Err? ==> r.error.status == BAD_REQUEST
  {
    match SplitStartLine(lines[0])
    case None => Err(Raise(BadRequest, Some("Malformed start line: " + Repr(lines[0]))))
    case Some((methodStr, path, protocol)) =>
      match MethodFromValue(Upper(methodStr))
      case None => Err(Raise(BadRequest, Some("Unsupported HTTP method: " + methodStr)))
      case Some(m) =>
        match HeaderFold(map[], lines[1..])
        case Err(e) => Err(e)
        case Ok(headers) => Ok(Request(m, path, protocol, headers, body))
  }

  /** A request from its text: split off the body, then split the header part into lines. */
  function ParseText(text: string): (r: Result<Request, HttpError>)
    ensures r.Err? ==> r.error.status == BAD_REQUEST
  {
    var (head, body) := HeadAndBody(text);
    ParseLines(Split(head, CRLF), body)
  }

  /**
    What `HTTPRequest.from_bytes` computes: BadRequest for bytes that are not
    UTF-8, for a start line without two spaces, for a method whose upper-case
    form is not one of the seven, and for a header line without a colon.
   */
  function Parse(b: bytes): (r: Result<Request, HttpError>)
    ensures r.Err? ==> r.error.status == BAD_REQUEST
  {
    match Decode(b)
    case None => Err(Raise(BadRequest, Some("Invalid encoding in request")))
    case Some(text) => ParseText(text)
  }

  /** `HTTPRequest.from_bytes`, with the header loop as the source writes it. */
  method FromBytes(b: bytes) returns (r: Result<Request, HttpError>)
    ensures r == Parse(b)
  {
    var decoded := Decode(b);
    if decoded.None? {
      return Err(Raise(BadRequest, Some("Invalid encoding in request")));
    }
    var text := decoded.value;
    var head, body := text, "";
    if Contains(text, BlankLine) {
      var split := SplitN(text, BlankLine, 1);
      SplitNOccurs(text, BlankLine, 1);
      head, body := split[0], split[1];
    }
    assert (head, body) == HeadAndBody(text);
    var lines := Split(head, CRLF);
    assert Parse(b) == ParseLines(lines, body);
    var startLine := lines[0];
    var parts := SplitStartLine(startLine);
    if parts.None? {
      return Err(Raise(BadRequest, Some("Malformed start line: " + Repr(startLine))));
    }
    var (methodStr, path, protocol) := parts.value;
    var verb := MethodFromValue(Upper(methodStr));
    if verb.None? {
      return Err(Raise(BadRequest, Some("Unsupported HTTP method: " + methodStr)));
    }
    var headers := ReadHeaders(lines);
    assert Parse(b) == match headers
      case Err(e) => Err(e)
      case Ok(h) => Ok(Request(verb.value, path, protocol, h, body));
    match headers
    case Err(e) => return Err(e);
    case Ok(h) => return Ok(Request(verb.value, path, protocol, h, body));
  }

  /**
    The header loop of `from_bytes`: the lines after the start line, up to the
    first empty one, each split at its first colon into a stripped lower-case
    key and a stripped value; a line without a colon is a BadRequest.
   */
  method ReadHeaders(lines: seq<string>) returns (r: Result<map<string, string>, HttpError>)
    requires |lines| >= 1
    ensures r == HeaderFold(map[], lines[1..])
  {
    ghost var spec := HeaderFold(map[], lines[1..]);
    var headers: map<string, string> := map[];
    var i := 1;
    while i < |lines|
      invariant 1 <= i <= |lines|
      invariant spec == HeaderFold(headers, lines[i..])
    {
      var line := lines[i];
      if line == "" {
        assert lines[i..][0] == "";
        break;
      }
      if ':' in line {
        var kv := SplitN(line, ":", 1);
        HeaderLineSplit(line);
        HeaderFoldAt(headers, lines, i);
        headers := headers[Lower(Strip(kv[0])) := Strip(kv[1])];
      } else {
        assert lines[i..][0] == line;
        return Err(Raise(BadRequest, Some("Malformed header line: " + Repr(line))));
      }
      i := i + 1;
    }
    assert i == |lines| ==> lines[i..] == [];
    return Ok(headers);
  }

  /** Splitting a header line once at ":" gives the two sides its entry is made from. */
  lemma HeaderLineSplit(line: string)
    requires ':' in line
    ensures var kv := SplitN(line, ":", 1); |kv| == 2 && Entry(kv[0], kv[1]) == HeaderEntry(line)
  {
    SplitOnceAtChar(line, ':');
    HeaderEntryCut(line, IndexOf(line, ':'));
  }

  /** The turn of the header loop at line `i`. */
  lemma HeaderFoldAt(acc: map<string, string>, lines: seq<string>, i: nat)
    requires i < |lines| && lines[i] != "" && ':' in lines[i]
    ensures HeaderFold(acc, lines[i..])
         == HeaderFold(acc[HeaderEntry(lines[i]).0 := HeaderEntry(lines[i]).1], lines[i + 1..])
  {
    assert lines[i..][0] == lines[i] && lines[i..][1..] == lines[i + 1..];
    HeaderFoldStep(acc, lines[i..]);
  }

  /** One turn of the header loop. */
  lemma HeaderFoldStep(acc: map<string, string>, lines: seq<string>)
    requires lines != [] && lines[0] != "" && ':' in lines[0]
    ensures HeaderFold(acc, lines)
         == HeaderFold(acc[HeaderEntry(lines[0]).0 := HeaderEntry(lines[0]).1], lines[1..])
  {
  }

  /**
    The header section of the lines after the start line: the lines before
    the first empty one.
   */
  function Section(lines: seq<string>): (r: seq<string>)
    ensures r <= lines
    ensures forall k :: 0 <= k < |r| ==> r[k] != ""
    ensures |r| < |lines| ==> lines[|r|] == ""
  {
    if lines == [] || lines[0] == "" then [] else [lines[0]] + Section(lines[1..])
  }

  predicate AllHaveColon(section: seq<string>)
  {
    forall k :: 0 <= k < |section| ==> ':' in section[k]
  }

  /** A non-empty first line opens the header section. */
  lemma SectionCons(lines: seq<string>)
    requires lines != [] && lines[0] != ""
    ensures Section(lines) == [lines[0]] + Section(lines[1..])
    ensures AllHaveColon(Section(lines)) <==> ':' in lines[0] && AllHaveColon(Section(lines[1..]))
    ensures forall i :: 0 <= i < |Section(lines[1..])| ==> Section(lines[1..])[i] == Section(lines)[i + 1]
  {
    assert Section(lines) == [lines[0]] + Section(lines[1..]);
  }

  /** The key and value of each line of a header section, in order. */
  function Entries(section: seq<string>): (r: seq<(string, string)>)
    requires AllHaveColon(section)
    ensures |r| == |section|
  {
    if section == [] then []
    else
      ColonsInTail(section);
      [HeaderEntry(section[0])] + Entries(section[1..])
  }

  lemma ColonsInTail(section: seq<string>)
    requires section != [] && AllHaveColon(section)
    ensures ':' in section[0] && AllHaveColon(section[1..])
  {
    assert forall k :: 0 <= k < |section| - 1 ==> section[1..][k] == section[k + 1];
  }

  /** The j-th entry is the key and value of the j-th line. */
  lemma {:induction false} EntryAt(section: seq<string>, j: nat)
    requires AllHaveColon(section) && j < |section|
    ensures Entries(section)[j] == HeaderEntry(section[j])
    decreases j
  {
    if j > 0 {
      assert section[1..][j - 1] == section[j];
      EntryAt(section[1..], j - 1);
    }
  }

  lemma EntriesCons(lines: seq<string>)
    requires lines != [] && lines[0] != "" && AllHaveColon(Section(lines))
    ensures AllHaveColon(Section(lines[1..]))
    ensures Entries(Section(lines)) == [HeaderEntry(lines[0])] + Entries(Section(lines[1..]))
  {
    var sec := Section(lines);
    SectionCons(lines);
    assert sec[0] == lines[0] && sec[1..] == Section(lines[1..]);
  }

  /**
    Python's `d[k] = v` for each entry in turn, starting from `acc`: the
    reference meaning of a sequence of header assignments.
   */
  function Store(acc: map<string, string>, es: seq<(string, string)>): map<string, string>
    decreases |es|
  {
    if es == [] then acc else Store(acc[es[0].0 := es[0].1], es[1..])
  }

  /**
    The header loop succeeds exactly when every line of the header section
    has a colon, and then it stores the entries of those lines in order.
   */
  lemma {:induction false} HeaderFoldStores(acc: map<string, string>, lines: seq<string>)
    ensures HeaderFold(acc, lines).Ok? <==> AllHaveColon(Section(lines))
    ensures AllHaveColon(Section(lines)) ==> HeaderFold(acc, lines) == Ok(Store(acc, Entries(Section(lines))))
    decreases |lines|
  {
    if lines == [] || lines[0] == "" {
    } else if ':' !in lines[0] {
      SectionCons(lines);
    } else {
      var e := HeaderEntry(lines[0]);
      HeaderFoldStep(acc, lines);
      SectionCons(lines);
      HeaderFoldStores(acc[e.0 := e.1], lines[1..]);
      if AllHaveColon(Section(lines)) {
        EntriesCons(lines);
      }
    }
  }

  /** A key that no entry carries keeps whatever the starting map says of it. */
  lemma {:induction false} StoreUntouched(acc: map<string, string>, es: seq<(string, string)>, key: string)
    requires forall j :: 0 <= j < |es| ==> es[j].0 != key
    ensures key in Store(acc, es) <==> key in acc
    ensures key in acc ==> Store(acc, es)[key] == acc[key]
    decreases |es|
  {
    if es != [] {
      assert es[0].0 != key;
      assert forall j :: 0 <= j < |es[1..]| ==> es[1..][j] == es[j + 1];
      StoreUntouched(acc[es[0].0 := es[0].1], es[1..], key);
    }
  }

  /** Duplicate keys: the value stored for a key is that of the LAST entry carrying it. */
  lemma {:induction false} StoreLastWins(acc: map<string, string>, es: seq<(string, string)>, j: nat)
    requires j < |es|
    requires forall j' :: j < j' < |es| ==> es[j'].0 != es[j].0
    ensures es[j].0 in Store(acc, es) && Store(acc, es)[es[j].0] == es[j].1
    decreases |es|
  {
    var rest := es[1..];
    assert forall i :: 0 <= i < |rest| ==> rest[i] == es[i + 1];
    if j == 0 {
      StoreUntouched(acc[es[0].0 := es[0].1], rest, es[0].0);
    } else {
      StoreLastWins(acc[es[0].0 := es[0].1], rest, j - 1);
    }
  }

  /** The keys stored are those of the starting map and those of the entries. */
  lemma {:induction false} StoreKeys(acc: map<string, string>, es: seq<(string, string)>)
    ensures Store(acc, es).Keys == acc.Keys + set j | 0 <= j < |es| :: es[j].0
    decreases |es|
  {
    if es != [] {
      StoreKeys(acc[es[0].0 := es[0].1], es[1..]);
      var tail := set j | 0 <= j < |es[1..]| :: es[1..][j].0;
      var all := set j | 0 <= j < |es| :: es[j].0;
      assert all == {es[0].0} + tail by {
        forall k | k in all ensures k in {es[0].0} + tail {
          var j :| 0 <= j < |es| && es[j].0 == k;
          if j > 0 { assert es[1..][j - 1].0 == k; }
        }
        forall k | k in tail ensures k in all {
          var j :| 0 <= j < |es[1..]| && es[1..][j].0 == k;
          assert es[j + 1].0 == k;
        }
      }
    }
  }

  /**
    A header map entry as the parser stores it: the key is stripped, has no
    colon and no upper-case ASCII letter; the value is stripped.
   */
  predicate WellFormedHeader(key: string, value: string)
  {
    && ':' !in key
    && (forall i :: 0 <= i < |key| ==> !('A' <= key[i] <= 'Z'))
    && (key == [] || (!IsSpace(key[0]) && !IsSpace(key[|key| - 1])))
    && (value == [] || (!IsSpace(value[0]) && !IsSpace(value[|value| - 1])))
  }

  /** Every entry of a header map is well-formed. */
  predicate WellFormedHeaders(m: map<string, string>)
  {
    forall k :: k in m ==> WellFormedHeader(k, m[k])
  }

  /** Every header line yields a well-formed entry. */
  lemma HeaderEntryWellFormed(line: string)
    requires ':' in line
    ensures var (key, value) := HeaderEntry(line); WellFormedHeader(key, value)
  {
    var i := IndexOf(line, ':');
    HeaderEntryCut(line, i);
    EntryWellFormed(line[..i], line[i + 1..]);
  }

  /** A header line's entry is made from the text on either side of its first colon. */
  lemma HeaderEntryCut(line: string, i: nat)
    requires ':' in line && i == IndexOf(line, ':')
    ensures HeaderEntry(line) == Entry(line[..i], line[i + 1..])
  {
  }

  /** The entry made from a name without colons and any value is well-formed. */
  lemma EntryWellFormed(raw: string, rest: string)
    requires ':' !in raw
    ensures WellFormedHeader(Entry(raw, rest).0, Entry(raw, rest).1)
  {
    HeaderKeyWellFormed(raw);
    StripBounds(rest);
  }

  /** The key made from the text before the first colon: no colon, no upper-case letter, no outer white space. */
  lemma HeaderKeyWellFormed(raw: string)
    requires ':' !in raw
    ensures var key := Lower(Strip(raw));
      && ':' !in key
      && (forall n :: 0 <= n < |key| ==> !('A' <= key[n] <= 'Z'))
      && (key == [] || (!IsSpace(key[0]) && !IsSpace(key[|key| - 1])))
  {
    var t := Strip(raw);
    StripBounds(raw);
    var i := |raw| - |TrimStart(raw)|;
    assert ':' !in t by {
      assert forall n :: 0 <= n < |t| ==> t[n] == raw[i + n];
    }
    LoweredKey(t);
  }

  /** Lower-casing a name without colons leaves no colon and no upper-case letter, and keeps white space where it was. */
  lemma LoweredKey(t: string)
    requires ':' !in t
    ensures var key := Lower(t);
      && ':' !in key
      && (forall n :: 0 <= n < |key| ==> !('A' <= key[n] <= 'Z'))
      && (forall n :: 0 <= n < |key| ==> IsSpace(key[n]) == IsSpace(t[n]))
  {
    var key := Lower(t);
    forall n | 0 <= n < |key|
      ensures key[n] != ':' && !('A' <= key[n] <= 'Z')
      ensures IsSpace(key[n]) == IsSpace(t[n])
    {
      LowerCharFacts(t[n]);
    }
  }

  /** The parser's header map holds only well-formed entries. */
  lemma {:induction false} HeaderFoldWellFormed(acc: map<string, string>, lines: seq<string>)
    requires WellFormedHeaders(acc)
    ensures HeaderFold(acc, lines).Ok? ==> WellFormedHeaders(HeaderFold(acc, lines).value)
    decreases |lines|
  {
    if lines != [] && lines[0] != "" && ':' in lines[0] {
      var e := HeaderEntry(lines[0]);
      HeaderEntryWellFormed(lines[0]);
      var next := acc[e.0 := e.1];
      WellFormedStore(acc, e.0, e.1);
      HeaderFoldWellFormed(next, lines[1..]);
      HeaderFoldStep(acc, lines);
    }
  }

  /** Storing a well-formed entry into a map of well-formed entries keeps them all well-formed. */
  lemma WellFormedStore(acc: map<string, string>, key: string, value: string)
    requires WellFormedHeaders(acc)
    requires WellFormedHeader(key, value)
    ensures WellFormedHeaders(acc[key := value])
  {
  }

  /**
    What `from_bytes` accepts and what it builds. It succeeds exactly when
    the bytes are UTF-8, the first line of the header part has two spaces,
    the upper-cased first token names a method, and every line of the header
    section has a colon. The request then carries that method, the path and
    protocol of the start line, the entries of the header section stored in
    order (so the last of a duplicated key wins), all well-formed, and the
    text after the first blank line as its body.
   */
  lemma ParseOutcome(b: bytes)
    ensures Parse(b).Ok? <==>
      && Decode(b).Some?
      && var lines := Split(HeadAndBody(Decode(b).value).0, CRLF);
      && SplitStartLine(lines[0]).Some?
      && MethodFromValue(Upper(SplitStartLine(lines[0]).value.0)).Some?
      && AllHaveColon(Section(lines[1..]))
    ensures Parse(b).Ok? ==>
      var req := Parse(b).value;
      var (head, body) := HeadAndBody(Decode(b).value);
      var lines := Split(head, CRLF);
      var (methodStr, path, protocol) := SplitStartLine(lines[0]).value;
      && MethodName(req.verb) == Upper(methodStr)
      && req.path == path && req.protocol == protocol && req.body == body
      && AllHaveColon(Section(lines[1..]))
      && req.headers == Store(map[], Entries(Section(lines[1..])))
      && WellFormedHeaders(req.headers)
  {
    if Decode(b).Some? {
      var lines := Split(HeadAndBody(Decode(b).value).0, CRLF);
      HeaderFoldStores(map[], lines[1..]);
      HeaderFoldWellFormed(map[], lines[1..]);
    }
  }

  /** `request.get_header(name, default)`: case-insensitive lookup. */
  function GetHeader(req: Request, name: string, default: string): string
  {
    var key := Lower(name);
    if key in req.headers then req.headers[key] else default
  }

  /** Looking a header up ignores the case of the ASCII letters of its name. */
  lemma GetHeaderIgnoresCase(req: Request, name: string, other: string, default: string)
    requires Lower(name) == Lower(other)
    ensures GetHeader(req, name, default) == GetHeader(req, other, default)
    ensures GetHeader(req, Lower(name), default) == GetHeader(req, name, default)
  {
    LowerIdempotent(name);
  }

  /**
    `request.should_close_connection`: the stored `connection` value,
    lower-cased, is exactly "close"; a request without one keeps the
    connection open.
   */
  function ShouldCloseConnection(req: Request): (r: bool)
    ensures r <==> "connection" in req.headers && Lower(req.headers["connection"]) == "close"
  {
    assert Lower(ConnectionHeader) == "connection";
    Lower(GetHeader(req, ConnectionHeader, "")) == "close"
  }
}
