/**
  The Python `str` operations the server's code relies on, for text made of
  Unicode scalar values: `in`, `find`, `split` (with and without a limit),
  `join`, `strip`, `startswith`, `lower`, `upper`, `str(int)` and `repr`.
 */
module Text {
  import opened Wrappers

  /** `sep` occurs in `s` starting at index `i`. */
  predicate OccursAt(s: string, sep: string, i: nat)
  {
    i + |sep| <= |s| && s[i..i + |sep|] == sep
  }

  /** Python's `s.find(sep)`: the first index at which `sep` occurs, if any. */
  function Find(s: string, sep: string): (r: Option<nat>)
    ensures r.Some? ==> OccursAt(s, sep, r.value)
    ensures r.Some? ==> forall j :: 0 <= j < r.value ==> !OccursAt(s, sep, j)
    ensures r.None? ==> forall j :: 0 <= j ==> !OccursAt(s, sep, j)
    decreases |s|
  {
    if |s| < |sep| then None
    else if s[..|sep|] == sep then Some(0)
    else
      match Find(s[1..], sep)
      case None =>
        assert forall j :: 0 < j ==> !OccursAt(s, sep, j) by {
          forall j | 0 < j ensures !OccursAt(s, sep, j) { OccursShift(s, sep, j); }
        }
        None
      case Some(i) =>
        OccursShift(s, sep, i + 1);
        assert forall j :: 0 < j <= i ==> !OccursAt(s, sep, j) by {
          forall j | 0 < j <= i ensures !OccursAt(s, sep, j) { OccursShift(s, sep, j); }
        }
        Some(i + 1)
  }

  /** An occurrence after the first character is an occurrence in the rest. */
  lemma OccursShift(s: string, sep: string, j: nat)
    requires 0 < j && s != []
    ensures OccursAt(s, sep, j) <==> OccursAt(s[1..], sep, j - 1)
  {
    if j + |sep| <= |s| {
      assert s[1..][j - 1..j - 1 + |sep|] == s[j..j + |sep|];
    }
  }

  /** Python's `sep in s`. */
  predicate Contains(s: string, sep: string)
  {
    Find(s, sep).Some?
  }

  /** Python's `sep.join(parts)`. */
  function Join(parts: seq<string>, sep: string): string
  {
    if |parts| == 0 then ""
    else if |parts| == 1 then parts[0]
    else parts[0] + sep + Join(parts[1..], sep)
  }

  /**
    Python's `s.split(sep)` for a non-empty separator: the pieces between the
    successive leftmost occurrences of `sep`. Joining them back with `sep`
    gives `s`, and no piece contains `sep`.
   */
  function Split(s: string, sep: string): (r: seq<string>)
    requires sep != []
    ensures |r| >= 1
    ensures Join(r, sep) == s
    ensures forall k :: 0 <= k < |r| ==> !Contains(r[k], sep)
    decreases |s|
  {
    match Find(s, sep)
    case None => [s]
    case Some(i) =>
      var rest := Split(s[i + |sep|..], sep);
      NoEarlierOccurrence(s, sep, i);
      JoinAfterCut(s, sep, i, rest);
      [s[..i]] + rest
  }

  /** Python's `s.split(sep, limit)`: at most `limit` splits, the remainder is the last piece. */
  function SplitN(s: string, sep: string, limit: nat): (r: seq<string>)
    requires sep != []
    ensures 1 <= |r| <= limit + 1
    ensures Join(r, sep) == s
    ensures forall k :: 0 <= k < |r| - 1 ==> !Contains(r[k], sep)
    ensures |r| <= limit ==> !Contains(r[|r| - 1], sep)
    decreases limit
  {
    if limit == 0 then [s]
    else
      match Find(s, sep)
      case None => [s]
      case Some(i) =>
        var rest := SplitN(s[i + |sep|..], sep, limit - 1);
        SplitNStep(s, sep, limit, i, rest);
        [s[..i]] + rest
  }

  /** A text is what comes before an occurrence, the occurrence, and what follows. */
  lemma CutAt(s: string, sep: string, i: nat)
    requires OccursAt(s, sep, i)
    ensures s == s[..i] + sep + s[i + |sep|..]
  {
    assert s == s[..i] + s[i..i + |sep|] + s[i + |sep|..];
  }

  /** Joining the text before an occurrence with the pieces of the text after it gives the text. */
  lemma JoinAfterCut(s: string, sep: string, i: nat, rest: seq<string>)
    requires OccursAt(s, sep, i) && rest != [] && Join(rest, sep) == s[i + |sep|..]
    ensures Join([s[..i]] + rest, sep) == s
  {
    var r := [s[..i]] + rest;
    assert r[0] == s[..i] && r[1..] == rest;
    CutAt(s, sep, i);
  }

  /** The piece before the first occurrence, followed by the split of the rest, is the split of the whole. */
  lemma SplitNStep(s: string, sep: string, limit: nat, i: nat, rest: seq<string>)
    requires sep != [] && limit >= 1 && Find(s, sep) == Some(i)
    requires 1 <= |rest| <= limit && Join(rest, sep) == s[i + |sep|..]
    requires forall k :: 0 <= k < |rest| - 1 ==> !Contains(rest[k], sep)
    requires |rest| <= limit - 1 ==> !Contains(rest[|rest| - 1], sep)
    ensures var r := [s[..i]] + rest;
      && 1 <= |r| <= limit + 1 && Join(r, sep) == s
      && (forall k :: 0 <= k < |r| - 1 ==> !Contains(r[k], sep))
      && (|r| <= limit ==> !Contains(r[|r| - 1], sep))
  {
    NoEarlierOccurrence(s, sep, i);
    JoinAfterCut(s, sep, i, rest);
    PrependFreePiece(s[..i], rest, sep, limit);
  }

  /** Putting a piece without the separator in front of the pieces keeps every piece but the last free of it. */
  lemma PrependFreePiece(p: string, rest: seq<string>, sep: string, limit: nat)
    requires !Contains(p, sep) && 1 <= |rest| <= limit
    requires forall k :: 0 <= k < |rest| - 1 ==> !Contains(rest[k], sep)
    requires |rest| <= limit - 1 ==> !Contains(rest[|rest| - 1], sep)
    ensures var r := [p] + rest;
      && 1 <= |r| <= limit + 1
      && (forall k :: 0 <= k < |r| - 1 ==> !Contains(r[k], sep))
      && (|r| <= limit ==> !Contains(r[|r| - 1], sep))
  {
    var r := [p] + rest;
    forall k | 0 <= k < |r| - 1 ensures !Contains(r[k], sep) {
      if k > 0 {
        assert r[k] == rest[k - 1];
      }
    }
    assert r[|r| - 1] == rest[|rest| - 1];
  }

  /** With a separator that occurs, a split with a positive limit has at least two pieces. */
  lemma SplitNOccurs(s: string, sep: string, limit: nat)
    requires sep != [] && limit >= 1 && Contains(s, sep)
    ensures |SplitN(s, sep, limit)| >= 2
  {
  }

  /** The text before the first occurrence of `sep` does not contain `sep`. */
  lemma NoEarlierOccurrence(s: string, sep: string, i: nat)
    requires sep != []
    requires Find(s, sep) == Some(i)
    ensures !Contains(s[..i], sep)
  {
    var p := s[..i];
    if Find(p, sep).Some? {
      var j := Find(p, sep).value;
      assert p[j..j + |sep|] == s[j..j + |sep|];
      assert OccursAt(s, sep, j);
    }
  }

  /** A one-character separator occurs exactly when the character does. */
  lemma ContainsChar(s: string, c: char)
    ensures Contains(s, [c]) <==> c in s
  {
    if c in s {
      var i :| 0 <= i < |s| && s[i] == c;
      assert OccursAt(s, [c], i);
    }
    if Contains(s, [c]) {
      var i := Find(s, [c]).value;
      assert s[i..i + 1][0] == c;
    }
  }

  /** The index of the first occurrence of the character `c` in `s`. */
  function IndexOf(s: string, c: char): (r: nat)
    requires c in s
    ensures r < |s| && s[r] == c && c !in s[..r]
  {
    if s[0] == c then 0
    else
      assert c in s[1..] by { var i :| 0 <= i < |s| && s[i] == c; assert s[1..][i - 1] == c; }
      var r := IndexOf(s[1..], c) + 1;
      assert s[..r] == [s[0]] + s[1..][..r - 1];
      r
  }

  /** Splitting once at a one-character separator cuts at its first occurrence. */
  lemma SplitOnceAtChar(s: string, c: char)
    requires c in s
    ensures SplitN(s, [c], 1) == [s[..IndexOf(s, c)], s[IndexOf(s, c) + 1..]]
  {
    var i := IndexOf(s, c);
    FindChar(s, c);
    assert SplitN(s, [c], 1) == [s[..i]] + SplitN(s[i + 1..], [c], 0);
  }

  /** Finding a one-character separator finds the first occurrence of the character. */
  lemma FindChar(s: string, c: char)
    requires c in s
    ensures Find(s, [c]) == Some(IndexOf(s, c))
  {
    var i := IndexOf(s, c);
    ContainsChar(s, c);
    var f := Find(s, [c]).value;
    assert s[f..f + 1][0] == c;
    assert forall j :: 0 <= j < i ==> s[j] != c by {
      forall j | 0 <= j < i ensures s[j] != c { assert s[..i][j] == s[j]; }
    }
    assert OccursAt(s, [c], i) by { assert s[i..i + 1] == [c]; }
  }

  /** Python's `s.split(c)` for a one-character separator. */
  function SplitOn(s: string, c: char): (r: seq<string>)
    ensures |r| >= 1
    ensures forall k :: 0 <= k < |r| ==> c !in r[k]
    decreases |s|
  {
    if c !in s then [s]
    else
      var i := IndexOf(s, c);
      [s[..i]] + SplitOn(s[i + 1..], c)
  }

  /** Splitting at a one-character separator is splitting at that one-character string. */
  lemma {:induction false} SplitOnAgrees(s: string, c: char)
    ensures SplitOn(s, c) == Split(s, [c])
    decreases |s|
  {
    ContainsChar(s, c);
    if c in s {
      var i := IndexOf(s, c);
      SplitOnceAtChar(s, c);
      SplitOnAgrees(s[i + 1..], c);
    }
  }

  /** The first occurrence is the only position holding `c` with none before it. */
  lemma IndexOfUnique(s: string, c: char, i: nat)
    requires i < |s| && s[i] == c && c !in s[..i]
    ensures IndexOf(s, c) == i
  {
    var r := IndexOf(s, c);
    assert forall j :: 0 <= j < i ==> s[..i][j] == s[j];
    assert forall j :: 0 <= j < r ==> s[..r][j] == s[j];
  }

  /** Splitting a text made of two parts around one separator splits each part. */
  lemma {:induction false} SplitOnAppend(a: string, b: string, c: char)
    ensures SplitOn(a + [c] + b, c) == SplitOn(a, c) + SplitOn(b, c)
    decreases |a|
  {
    var s := a + [c] + b;
    if c !in a {
      AppendParts(a, b, c);
      IndexOfUnique(s, c, |a|);
      assert SplitOn(s, c) == [a] + SplitOn(b, c);
    } else {
      var k := IndexOf(a, c);
      AppendAfter(a, b, c, k);
      IndexOfUnique(s, c, k);
      assert SplitOn(s, c) == [a[..k]] + SplitOn(a[k + 1..] + [c] + b, c);
      assert SplitOn(a, c) == [a[..k]] + SplitOn(a[k + 1..], c);
      SplitOnAppend(a[k + 1..], b, c);
      ConsAssoc(a[..k], SplitOn(a[k + 1..], c), SplitOn(b, c));
    }
  }

  lemma ConsAssoc<T>(x: T, p: seq<T>, q: seq<T>)
    ensures [x] + (p + q) == ([x] + p) + q
  {
  }

  /** The parts of `a + [c] + b` around index `|a|`. */
  lemma AppendParts(a: string, b: string, c: char)
    ensures var s := a + [c] + b; s[|a|] == c && s[..|a|] == a && s[|a| + 1..] == b
  {
  }

  /** The parts of `a + [c] + b` around an index `k` inside `a`. */
  lemma AppendAfter(a: string, b: string, c: char, k: nat)
    requires k < |a|
    ensures var s := a + [c] + b; s[k] == a[k] && s[..k] == a[..k] && s[k + 1..] == a[k + 1..] + [c] + b
  {
  }

  /** Joining the pieces of a split gives the text back. */
  lemma {:induction false} JoinSplitOn(s: string, c: char)
    ensures Join(SplitOn(s, c), [c]) == s
    decreases |s|
  {
    if c in s {
      var i := IndexOf(s, c);
      JoinSplitOn(s[i + 1..], c);
      CutAtIndex(s, i);
    }
  }

  /** A text is what comes before index `i`, the character there, and what follows. */
  lemma CutAtIndex(s: string, i: nat)
    requires i < |s|
    ensures s == s[..i] + [s[i]] + s[i + 1..]
  {
  }

  /** Python's slice `s[n:]`, which is empty when `s` is shorter than `n`. */
  function From(s: string, n: nat): string
  {
    if |s| <= n then "" else s[n..]
  }

  /** Python's `s.startswith(prefix)`. */
  predicate StartsWith(s: string, prefix: string)
  {
    |prefix| <= |s| && s[..|prefix|] == prefix
  }

  /**
    Python's `str.isspace` for one character: the Unicode white space and
    separators, U+0009 to U+000D, U+001C to U+001F, space, U+0085, U+00A0,
    U+1680, U+2000 to U+200A, U+2028, U+2029, U+202F, U+205F and U+3000.
   */
  predicate IsSpace(c: char)
  {
    || '\t' <= c <= '\r' || '\U{1C}' <= c <= ' '
    || c == '\U{85}' || c == '\U{A0}' || c == '\U{1680}'
    || '\U{2000}' <= c <= '\U{200A}' || c == '\U{2028}' || c == '\U{2029}'
    || c == '\U{202F}' || c == '\U{205F}' || c == '\U{3000}'
  }

  /** `s` without its leading white space. */
  function TrimStart(s: string): (r: string)
    ensures |r| <= |s| && r == s[|s| - |r|..]
    ensures forall k :: 0 <= k < |s| - |r| ==> IsSpace(s[k])
    ensures r == [] || !IsSpace(r[0])
  {
    if s != [] && IsSpace(s[0]) then TrimStart(s[1..]) else s
  }

  /** `s` without its trailing white space. */
  function TrimEnd(s: string): (r: string)
    ensures |r| <= |s| && r == s[..|r|]
    ensures forall k :: |r| <= k < |s| ==> IsSpace(s[k])
    ensures r == [] || !IsSpace(r[|r| - 1])
  {
    if s != [] && IsSpace(s[|s| - 1]) then TrimEnd(s[..|s| - 1]) else s
  }

  /** Python's `s.strip()`. */
  function Strip(s: string): string
  {
    TrimEnd(TrimStart(s))
  }

  /** A stripped string neither starts nor ends with white space, and is a slice of the input. */
  lemma StripBounds(s: string)
    ensures var r, i := Strip(s), |s| - |TrimStart(s)|;
      && (r == [] || (!IsSpace(r[0]) && !IsSpace(r[|r| - 1])))
      && i + |r| <= |s| && s[i..i + |r|] == r
  {
    StripEdges(s);
    StripIsSlice(s);
  }

  lemma StripEdges(s: string)
    ensures Strip(s) == [] || (!IsSpace(Strip(s)[0]) && !IsSpace(Strip(s)[|Strip(s)| - 1]))
  {
    var t := TrimStart(s);
    var r := TrimEnd(t);
    if r != [] {
      assert r[0] == t[0];
    }
  }

  lemma StripIsSlice(s: string)
    ensures |s| - |TrimStart(s)| + |Strip(s)| <= |s|
    ensures s[|s| - |TrimStart(s)|..|s| - |TrimStart(s)| + |Strip(s)|] == Strip(s)
  {
    var t := TrimStart(s);
    var r := TrimEnd(t);
    SliceOfSlice(s, |s| - |t|, |r|);
  }

  lemma SliceOfSlice(s: string, i: nat, n: nat)
    requires i + n <= |s|
    ensures s[i..][..n] == s[i..i + n]
  {
  }

  /**
    Python's `str.lower` on one character, for the ASCII letters. Every other
    character is kept (see the README for what that leaves out).
   */
  function LowerChar(c: char): char
  {
    if 'A' <= c <= 'Z' then (c as int + 32) as char else c
  }

  /** Python's `s.lower()`, character by character. */
  function Lower(s: string): (r: string)
    ensures |r| == |s|
    ensures forall k :: 0 <= k < |s| ==> r[k] == LowerChar(s[k])
  {
    seq(|s|, k requires 0 <= k < |s| => LowerChar(s[k]))
  }

  /**
    Lower-casing leaves no ASCII capital, keeps white space and every
    character that is not an ASCII capital.
   */
  lemma LowerCharFacts(c: char)
    ensures !('A' <= LowerChar(c) <= 'Z')
    ensures IsSpace(LowerChar(c)) == IsSpace(c)
    ensures !('A' <= c <= 'Z') ==> LowerChar(c) == c
  {
  }

  /** Lower-casing twice is lower-casing once. */
  lemma LowerIdempotent(s: string)
    ensures Lower(Lower(s)) == Lower(s)
  {
  }

  /**
    Python's `str.upper` on one character, for the ASCII letters and for the
    characters whose upper-case form is made only of ASCII letters: sharp s,
    dotless i, long s and the Latin ligatures U+FB00 to U+FB06. Every other
    character is kept.
   */
  function UpperChar(c: char): string
  {
    if 'a' <= c <= 'z' then [(c as int - 32) as char]
    else if c == '\U{DF}' then "SS"
    else if c == '\U{131}' then "I"
    else if c == '\U{17F}' then "S"
    else if c == '\U{FB00}' then "FF"
    else if c == '\U{FB01}' then "FI"
    else if c == '\U{FB02}' then "FL"
    else if c == '\U{FB03}' then "FFI"
    else if c == '\U{FB04}' then "FFL"
    else if c == '\U{FB05}' || c == '\U{FB06}' then "ST"
    else [c]
  }

  /** Python's `s.upper()`. */
  function Upper(s: string): string
  {
    if s == [] then [] else UpperChar(s[0]) + Upper(s[1..])
  }

  /** Upper-casing distributes over concatenation. */
  lemma {:induction false} UpperAppend(a: string, b: string)
    ensures Upper(a + b) == Upper(a) + Upper(b)
  {
    if a == [] {
      assert a + b == b;
    } else {
      assert (a + b)[0] == a[0] && (a + b)[1..] == a[1..] + b;
      UpperAppend(a[1..], b);
    }
  }

  function DigitChar(d: nat): char
    requires d < 10
  {
    ('0' as int + d) as char
  }

  predicate IsDigit(c: char)
  {
    '0' <= c <= '9'
  }

  /** Python's `str(n)` for a non-negative integer: its decimal digits, without leading zeros. */
  function NatToString(n: nat): (r: string)
    ensures r != []
    ensures forall k :: 0 <= k < |r| ==> IsDigit(r[k])
    ensures |r| > 1 ==> r[0] != '0'
    ensures n < 10 <==> |r| == 1
  {
    if n < 10 then [DigitChar(n)] else NatToString(n / 10) + [DigitChar(n % 10)]
  }

  /** The value of a string of decimal digits (Python's `int(s)` on such a string). */
  function DecimalValue(s: string): nat
    requires forall k :: 0 <= k < |s| ==> IsDigit(s[k])
  {
    if s == [] then 0
    else
      assert IsDigit(s[|s| - 1]);
      DecimalValue(s[..|s| - 1]) * 10 + (s[|s| - 1] as int - '0' as int)
  }

  /** `s` is a string of decimal digits whose value is `n`. */
  predicate IsDecimalOf(s: string, n: nat)
  {
    (forall k :: 0 <= k < |s| ==> IsDigit(s[k])) && DecimalValue(s) == n
  }

  /** Reading back the decimal text of `n` gives `n`. */
  lemma {:induction false} DecimalRoundTrip(n: nat)
    ensures DecimalValue(NatToString(n)) == n
  {
    if n >= 10 {
      var s := NatToString(n);
      assert s[..|s| - 1] == NatToString(n / 10);
      DecimalRoundTrip(n / 10);
    }
  }

  function HexDigit(d: nat): char
    requires d < 16
  {
    if d < 10 then DigitChar(d) else ('a' as int + d - 10) as char
  }

  /** `n` as exactly `width` lower-case hexadecimal digits. */
  function Hex(n: nat, width: nat): (r: string)
    ensures |r| == width
  {
    if width == 0 then "" else Hex(n / 16, width - 1) + [HexDigit(n % 16)]
  }

  /**
    One character as Python's `repr` writes it inside quotes `q`. Non-ASCII
    characters other than U+0080 to U+00A0 and U+00AD are treated as
    printable.
   */
  function ReprChar(c: char, q: char): string
  {
    if c == q || c == '\\' then ['\\', c]
    else if c == '\t' then "\\t"
    else if c == '\n' then "\\n"
    else if c == '\r' then "\\r"
    else if c < ' ' || '\U{7F}' <= c <= '\U{A0}' || c == '\U{AD}' then "\\x" + Hex(c as int, 2)
    else [c]
  }

  function ReprBody(s: string, q: char): string
  {
    if s == [] then "" else ReprChar(s[0], q) + ReprBody(s[1..], q)
  }

  /**
    Python's `repr(s)`: single quotes, unless `s` contains a single quote and
    no double quote.
   */
  function Repr(s: string): (r: string)
    ensures |r| >= 2 && r[0] == r[|r| - 1] && (r[0] == '\'' || r[0] == '"')
  {
    var q := if '\'' in s && '"' !in s then '"' else '\'';
    [q] + ReprBody(s, q) + [q]
  }

  /** Every character of the text is ASCII. */
  predicate IsAscii(s: string)
  {
    forall k :: 0 <= k < |s| ==> s[k] < '\U{80}'
  }
}
