/**
  Bytes, and the two encodings the server uses to cross between bytes and
  text: strict UTF-8 (Python's `bytes.decode('utf-8')` and
  `str.encode('utf-8')`) and ASCII (`str.encode('ascii')`).
 */
module Utf8 {
  import opened Wrappers
  import Text

  newtype byte = x: int | 0 <= x < 256

  type bytes = seq<byte>

  /** A continuation byte, 10xxxxxx. */
  predicate IsContinuation(b: byte)
  {
    0x80 <= b < 0xC0
  }

  /** The UTF-8 encoding of one Unicode scalar value, in one to four bytes. */
  function EncodeChar(c: char): (r: bytes)
    ensures 1 <= |r| <= 4
    ensures (|r| == 1) == (c as int < 0x80)
  {
    var n := c as int;
    if n < 0x80 then [n as byte]
    else if n < 0x800 then [(0xC0 + n / 64) as byte, (0x80 + n % 64) as byte]
    else if n < 0x10000 then
      [(0xE0 + n / 4096) as byte, (0x80 + (n / 64) % 64) as byte, (0x80 + n % 64) as byte]
    else
      [(0xF0 + n / 262144) as byte, (0x80 + (n / 4096) % 64) as byte,
       (0x80 + (n / 64) % 64) as byte, (0x80 + n % 64) as byte]
  }

  /** Python's `s.encode('utf-8')`. */
  function Encode(s: string): (r: bytes)
    ensures |r| >= |s|
  {
    if s == [] then [] else EncodeChar(s[0]) + Encode(s[1..])
  }

  /** A code point that is a Unicode scalar value, so a `char`. */
  predicate IsScalar(n: int)
  {
    0 <= n < 0xD800 || 0xE000 <= n < 0x110000
  }

  /**
    The first character of a non-empty byte string and the number of bytes it
    takes, or None when the bytes do not start with a well-formed sequence:
    a stray continuation byte, a bad lead byte, a missing continuation byte,
    an over-long form, a surrogate, or a value above U+10FFFF.
   */
  function DecodeFirst(b: bytes): (r: Option<(char, nat)>)
    requires b != []
    ensures r.Some? ==> 1 <= r.value.1 <= |b|
  {
    var b0 := b[0] as int;
    if b0 < 0x80 then Some((b0 as char, 1))
    else if 0xC0 <= b0 < 0xE0 then
      if |b| < 2 || !IsContinuation(b[1]) then None
      else
        var n := (b0 - 0xC0) * 64 + (b[1] as int - 0x80);
        if n < 0x80 then None else Some((n as char, 2))
    else if 0xE0 <= b0 < 0xF0 then
      if |b| < 3 || !IsContinuation(b[1]) || !IsContinuation(b[2]) then None
      else
        var n := ((b0 - 0xE0) * 64 + (b[1] as int - 0x80)) * 64 + (b[2] as int - 0x80);
        if n < 0x800 || !IsScalar(n) then None else Some((n as char, 3))
    else if 0xF0 <= b0 < 0xF8 then
      if |b| < 4 || !IsContinuation(b[1]) || !IsContinuation(b[2]) || !IsContinuation(b[3]) then None
      else
        var n := (((b0 - 0xF0) * 64 + (b[1] as int - 0x80)) * 64 + (b[2] as int - 0x80)) * 64
                 + (b[3] as int - 0x80);
        if n < 0x10000 || !IsScalar(n) then None else Some((n as char, 4))
    else None
  }

  /** Python's strict `b.decode('utf-8')`: the text, or None when it raises UnicodeDecodeError. */
  function Decode(b: bytes): Option<string>
    decreases |b|
  {
    if b == [] then Some([])
    else
      match DecodeFirst(b)
      case None => None
      case Some((c, n)) =>
        match Decode(b[n..])
        case None => None
        case Some(rest) => Some([c] + rest)
  }

  lemma DivMod64(n: int)
    requires n >= 0
    ensures (n / 64) * 64 + n % 64 == n
    ensures n / 4096 == (n / 64) / 64
    ensures n / 262144 == (n / 4096) / 64
  {
  }

  /** Decoding the encoding of one character gives that character back, whatever follows. */
  lemma DecodeFirstEncodeChar(c: char, rest: bytes)
    ensures DecodeFirst(EncodeChar(c) + rest) == Some((c, |EncodeChar(c)|))
  {
    var n := c as int;
    var b := EncodeChar(c) + rest;
    if n < 0x80 {
    } else if n < 0x800 {
      assert b[0] as int == 0xC0 + n / 64 && b[1] as int == 0x80 + n % 64;
      DecodeTwo(c, b);
    } else if n < 0x10000 {
      assert b[0] as int == 0xE0 + n / 4096;
      assert b[1] as int == 0x80 + (n / 64) % 64 && b[2] as int == 0x80 + n % 64;
      DecodeThree(c, b);
    } else {
      assert b[0] as int == 0xF0 + n / 262144;
      assert b[1] as int == 0x80 + (n / 4096) % 64;
      assert b[2] as int == 0x80 + (n / 64) % 64 && b[3] as int == 0x80 + n % 64;
      DecodeFour(c, b);
    }
  }

  /** The two-byte form of a character decodes back to it. */
  lemma DecodeTwo(c: char, b: bytes)
    requires 0x80 <= c as int < 0x800 && |b| >= 2
    requires b[0] as int == 0xC0 + c as int / 64 && b[1] as int == 0x80 + c as int % 64
    ensures DecodeFirst(b) == Some((c, 2))
  {
    DivMod64(c as int);
  }

  /** The three-byte form of a character decodes back to it. */
  lemma DecodeThree(c: char, b: bytes)
    requires 0x800 <= c as int < 0x10000 && |b| >= 3
    requires b[0] as int == 0xE0 + c as int / 4096
    requires b[1] as int == 0x80 + (c as int / 64) % 64 && b[2] as int == 0x80 + c as int % 64
    ensures DecodeFirst(b) == Some((c, 3))
  {
    var n := c as int;
    DivMod64(n);
    DivMod64(n / 64);
    assert (n / 4096) * 64 + (n / 64) % 64 == n / 64;
  }

  /** The four-byte form of a character decodes back to it. */
  lemma DecodeFour(c: char, b: bytes)
    requires 0x10000 <= c as int && |b| >= 4
    requires b[0] as int == 0xF0 + c as int / 262144
    requires b[1] as int == 0x80 + (c as int / 4096) % 64
    requires b[2] as int == 0x80 + (c as int / 64) % 64 && b[3] as int == 0x80 + c as int % 64
    ensures DecodeFirst(b) == Some((c, 4))
  {
    var n := c as int;
    DivMod64(n);
    DivMod64(n / 64);
    DivMod64(n / 4096);
    assert (n / 262144) * 64 + (n / 4096) % 64 == n / 4096;
    assert (n / 4096) * 64 + (n / 64) % 64 == n / 64;
  }

  /** Strict UTF-8 decoding undoes UTF-8 encoding: every text survives the trip through bytes. */
  lemma {:induction false} DecodeEncode(s: string)
    ensures Decode(Encode(s)) == Some(s)
  {
    if s != [] {
      var e := EncodeChar(s[0]);
      DecodeFirstEncodeChar(s[0], Encode(s[1..]));
      assert (e + Encode(s[1..]))[|e|..] == Encode(s[1..]);
      DecodeEncode(s[1..]);
      assert [s[0]] + s[1..] == s;
    }
  }

  /** UTF-8 encoding distributes over concatenation. */
  lemma {:induction false} EncodeAppend(a: string, b: string)
    ensures Encode(a + b) == Encode(a) + Encode(b)
  {
    if a == [] {
      assert a + b == b;
    } else {
      var s := a + b;
      assert s[0] == a[0] && s[1..] == a[1..] + b;
      assert Encode(s) == EncodeChar(a[0]) + Encode(a[1..] + b);
      EncodeAppend(a[1..], b);
      AppendAssoc(EncodeChar(a[0]), Encode(a[1..]), Encode(b));
    }
  }

  /** Encoding four texts one by one and joining the bytes is encoding the joined text. */
  lemma EncodeFour(a: string, b: string, c: string, d: string)
    ensures Encode(a) + Encode(b) + Encode(c) + Encode(d) == Encode(a + b + c + d)
  {
    EncodeAppend(a, b);
    EncodeAppend(a + b, c);
    EncodeAppend(a + b + c, d);
  }

  lemma AppendAssoc(x: bytes, y: bytes, z: bytes)
    ensures x + (y + z) == (x + y) + z
  {
  }

  /** An ASCII text is encoded byte for byte. */
  lemma {:induction false} EncodeAscii(s: string)
    requires Text.IsAscii(s)
    ensures |Encode(s)| == |s|
    ensures forall k :: 0 <= k < |s| ==> Encode(s)[k] as int == s[k] as int
  {
    if s != [] {
      assert Text.IsAscii(s[1..]) by {
        forall k | 0 <= k < |s[1..]| ensures s[1..][k] < '\U{80}' { assert s[1..][k] == s[k + 1]; }
      }
      EncodeAscii(s[1..]);
    }
  }

  /** Python's `s.encode('ascii')`: the bytes, or None when it raises UnicodeEncodeError. */
  function AsciiEncode(s: string): (r: Option<bytes>)
    ensures r.Some? <==> Text.IsAscii(s)
    ensures r.Some? ==> r.value == Encode(s)
  {
    if forall k :: 0 <= k < |s| ==> s[k] < '\U{80}' then
      EncodeAscii(s);
      Some(seq(|s|, k requires 0 <= k < |s| => s[k] as int as byte))
    else None
  }
}
