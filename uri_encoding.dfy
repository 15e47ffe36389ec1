/**
 * `encodeURIComponent`, which the handlers apply to the SPARQL query they put
 * into a URL: each character outside the unreserved set `A-Z a-z 0-9 - _ . ! ~
 * * ' ( )` becomes the `%XX` escapes of its UTF-8 bytes, with upper-case hex
 * digits. `Decode` (`decodeURIComponent`, which a SPARQL endpoint applies to
 * the query parameter) is its partner: decoding an encoding gives the text back.
 */
module UriEncoding {
  import opened Wrappers

  type Byte = b: int | 0 <= b < 256

  /** The characters `encodeURIComponent` leaves as they are. */
  predicate Unreserved(c: char)
  {
    ('A' <= c <= 'Z') || ('a' <= c <= 'z') || ('0' <= c <= '9')
    || c == '-' || c == '_' || c == '.' || c == '!' || c == '~' || c == '*'
    || c == '\'' || c == '(' || c == ')'
  }

  predicate IsUpperHex(c: char)
  {
    ('0' <= c <= '9') || ('A' <= c <= 'F')
  }

  function HexDigit(d: int): (c: char)
    requires 0 <= d < 16
    ensures IsUpperHex(c)
  {
    if d < 10 then ('0' as int + d) as char else ('A' as int + d - 10) as char
  }

  /** The value of a hex digit of either case. */
  function HexValue(c: char): (r: Option<int>)
    ensures r.Some? ==> 0 <= r.value < 16
  {
    if '0' <= c <= '9' then Some(c as int - '0' as int)
    else if 'A' <= c <= 'F' then Some(c as int - 'A' as int + 10)
    else if 'a' <= c <= 'f' then Some(c as int - 'a' as int + 10)
    else None
  }

  lemma HexRoundTrip(d: int)
    requires 0 <= d < 16
    ensures HexValue(HexDigit(d)) == Some(d)
  {
  }

  // ---------------------------------------------------------------------------
  // UTF-8.

  /** The UTF-8 encoding of one Unicode scalar value. */
  function Utf8(c: char): (r: seq<Byte>)
    ensures 1 <= |r| <= 4
  {
    var n := c as int;
    if n < 0x80 then [n]
    else if n < 0x800 then [0xC0 + n / 64, 0x80 + n % 64]
    else if n < 0x10000 then [0xE0 + n / 4096, 0x80 + (n / 64) % 64, 0x80 + n % 64]
    else [0xF0 + n / 262144, 0x80 + (n / 4096) % 64, 0x80 + (n / 64) % 64, 0x80 + n % 64]
  }

  /** How many bytes the sequence that starts with lead byte `b` holds, or 0 when `b` cannot
      start one. */
  function SequenceLength(b: Byte): (n: nat)
    ensures n <= 4
  {
    if b < 0x80 then 1
    else if 0xC0 <= b < 0xE0 then 2
    else if 0xE0 <= b < 0xF0 then 3
    else if 0xF0 <= b < 0xF8 then 4
    else 0
  }

  predicate IsContinuation(b: Byte)
  {
    0x80 <= b < 0xC0
  }

  /** Every byte after the first is a continuation byte `10xxxxxx`. */
  predicate ContinuationsOk(bytes: seq<Byte>)
  {
    forall i :: 1 <= i < |bytes| ==> IsContinuation(bytes[i])
  }

  /** The scalar value a complete byte sequence encodes; `None` for a bad continuation byte, an
      overlong form, a surrogate or a value past U+10FFFF. */
  function Utf8Char(bytes: seq<Byte>): Option<char>
    requires 1 <= |bytes| <= 4 && SequenceLength(bytes[0]) == |bytes|
  {
    if |bytes| == 1 then Some(bytes[0] as char)
    else if !ContinuationsOk(bytes) then None
    else if |bytes| == 2 then
      var cp: int := (bytes[0] as int - 0xC0) * 64 + (bytes[1] as int - 0x80);
      if cp < 0x80 then None else Some(cp as char)
    else if |bytes| == 3 then
      var cp: int := (bytes[0] as int - 0xE0) * 4096 + (bytes[1] as int - 0x80) * 64
                     + (bytes[2] as int - 0x80);
      if cp < 0x800 || (0xD800 <= cp < 0xE000) then None else Some(cp as char)
    else
      var cp: int := (bytes[0] as int - 0xF0) * 262144 + (bytes[1] as int - 0x80) * 4096
                     + (bytes[2] as int - 0x80) * 64 + (bytes[3] as int - 0x80);
      if cp < 0x10000 || cp >= 0x110000 then None else Some(cp as char)
  }

  /** Two-byte sequences decode back. */
  lemma Utf8RoundTripTwo(c: char)
    requires 0x80 <= c as int < 0x800
    ensures SequenceLength(Utf8(c)[0]) == |Utf8(c)| == 2
    ensures Utf8Char(Utf8(c)) == Some(c)
  {
    var n := c as int;
    var hi, lo := n / 64, n % 64;
    assert n == hi * 64 + lo && 2 <= hi < 32 && 0 <= lo < 64;
    assert Utf8(c) == [0xC0 + hi, 0x80 + lo];
  }

  /** Three-byte sequences decode back. */
  lemma Utf8RoundTripThree(c: char)
    requires 0x800 <= c as int < 0x10000
    ensures SequenceLength(Utf8(c)[0]) == |Utf8(c)| == 3
    ensures Utf8Char(Utf8(c)) == Some(c)
  {
    var n := c as int;
    var q := n / 64;
    var b0, b1, b2 := n / 4096, q % 64, n % 64;
    assert n == q * 64 + b2 && 0 <= b2 < 64;
    assert q == n / 4096 * 64 + b1 && 0 <= b1 < 64 by {
      assert n / 4096 == q / 64;
    }
    assert 0 <= b0 < 16;
    assert Utf8(c) == [0xE0 + b0, 0x80 + b1, 0x80 + b2];
    assert b0 * 4096 + b1 * 64 + b2 == n;
  }

  /** Four-byte sequences decode back. */
  lemma Utf8RoundTripFour(c: char)
    requires 0x10000 <= c as int
    ensures SequenceLength(Utf8(c)[0]) == |Utf8(c)| == 4
    ensures Utf8Char(Utf8(c)) == Some(c)
  {
    var n := c as int;
    assert n < 0x110000;
    var q := n / 64;
    var p := n / 4096;
    var b0, b1, b2, b3 := n / 262144, p % 64, q % 64, n % 64;
    assert n == q * 64 + b3 && 0 <= b3 < 64;
    assert q == p * 64 + b2 && 0 <= b2 < 64 by {
      assert p == q / 64;
    }
    assert p == b0 * 64 + b1 && 0 <= b1 < 64 by {
      assert b0 == p / 64;
    }
    assert 0 <= b0 < 5;
    assert Utf8(c) == [0xF0 + b0, 0x80 + b1, 0x80 + b2, 0x80 + b3];
    assert b0 * 262144 + b1 * 4096 + b2 * 64 + b3 == n;
  }

  lemma Utf8RoundTrip(c: char)
    ensures SequenceLength(Utf8(c)[0]) == |Utf8(c)|
    ensures Utf8Char(Utf8(c)) == Some(c)
  {
    var n := c as int;
    if n < 0x80 {
    } else if n < 0x800 {
      Utf8RoundTripTwo(c);
    } else if n < 0x10000 {
      Utf8RoundTripThree(c);
    } else {
      Utf8RoundTripFour(c);
    }
  }

  // ---------------------------------------------------------------------------
  // Percent-encoding.

  function Escape(b: Byte): (r: string)
    ensures |r| == 3
  {
    ['%', HexDigit(b / 16), HexDigit(b % 16)]
  }

  function EscapeAll(bytes: seq<Byte>): (r: string)
    ensures |r| == 3 * |bytes|
  {
    if bytes == [] then [] else Escape(bytes[0]) + EscapeAll(bytes[1..])
  }

  function EncodeChar(c: char): string
  {
    if Unreserved(c) then [c] else EscapeAll(Utf8(c))
  }

  /** `encodeURIComponent(s)`. Every text is accepted: a Dafny string holds Unicode scalar
      values only, so the lone surrogate on which the JavaScript function throws cannot occur. */
  function Encode(s: string): string
  {
    if s == [] then [] else EncodeChar(s[0]) + Encode(s[1..])
  }

  /** The byte that the escape `%XX` at the start of `s` stands for. */
  function EscapedByte(s: string): Option<Byte>
  {
    if |s| >= 3 && s[0] == '%' then
      var hi :- HexValue(s[1]);
      var lo :- HexValue(s[2]);
      Some(hi * 16 + lo)
    else None
  }

  /** The bytes of the `n` escapes that start `s`. */
  function EscapedBytes(s: string, n: nat): (r: Option<seq<Byte>>)
    ensures r.Some? ==> |r.value| == n && 3 * n <= |s|
  {
    if n == 0 then Some([])
    else
      var b :- EscapedByte(s);
      var rest :- EscapedBytes(s[3..], n - 1);
      Some([b] + rest)
  }

  /** `decodeURIComponent(s)`: `None` where the JavaScript function throws a `URIError`. */
  function Decode(s: string): Option<string>
    decreases |s|
  {
    if s == [] then Some([])
    else if s[0] != '%' then
      var rest :- Decode(s[1..]);
      Some([s[0]] + rest)
    else
      var lead :- EscapedByte(s);
      var n := SequenceLength(lead);
      if n == 0 then None
      else
        var bytes :- EscapedBytes(s, n);
        if SequenceLength(bytes[0]) != n then None
        else
          var c :- Utf8Char(bytes);
          var rest :- Decode(s[3 * n..]);
          Some([c] + rest)
  }

  // ---------------------------------------------------------------------------
  // Properties.

  lemma EscapedByteRoundTrip(b: Byte, rest: string)
    ensures EscapedByte(Escape(b) + rest) == Some(b)
  {
    HexRoundTrip(b / 16);
    HexRoundTrip(b % 16);
  }

  lemma {:induction false} EscapedBytesRoundTrip(bytes: seq<Byte>, rest: string)
    ensures EscapedBytes(EscapeAll(bytes) + rest, |bytes|) == Some(bytes)
  {
    if bytes != [] {
      var t := EscapeAll(bytes[1..]) + rest;
      var s := Escape(bytes[0]) + t;
      assert EscapeAll(bytes) + rest == s;
      EscapedByteRoundTrip(bytes[0], t);
      assert s[3..] == t;
      EscapedBytesRoundTrip(bytes[1..], rest);
      EscapedBytesCons(s, |bytes|, bytes[0], bytes[1..]);
      assert [bytes[0]] + bytes[1..] == bytes;
    }
  }

  /** How `Decode` reads a well-formed run of escapes that encodes `c`. */
  lemma DecodeEscapes(s: string, bytes: seq<Byte>, c: char, rest: string)
    requires 1 <= |bytes| <= 4 && SequenceLength(bytes[0]) == |bytes|
    requires s != [] && s[0] == '%' && EscapedByte(s) == Some(bytes[0])
    requires EscapedBytes(s, |bytes|) == Some(bytes)
    requires Utf8Char(bytes) == Some(c) && s[3 * |bytes|..] == rest
    ensures Decode(s) == if Decode(rest).Some? then Some([c] + Decode(rest).value) else None
  {
  }

  lemma EscapedBytesCons(s: string, n: nat, b: Byte, bs: seq<Byte>)
    requires n > 0 && |s| >= 3 && EscapedByte(s) == Some(b) && EscapedBytes(s[3..], n - 1) == Some(bs)
    ensures EscapedBytes(s, n) == Some([b] + bs)
  {
  }

  /** Decoding the encoding of one character, followed by any text, gives that character
      followed by the decoding of the text. */
  lemma DecodeEncodeChar(c: char, rest: string)
    ensures Decode(EncodeChar(c) + rest) ==
              if Decode(rest).Some? then Some([c] + Decode(rest).value) else None
  {
    var s := EncodeChar(c) + rest;
    if Unreserved(c) {
      assert s[0] == c && s[1..] == rest;
    } else {
      DecodeEscapeAll(c, rest);
    }
  }

  lemma DecodeEscapeAll(c: char, rest: string)
    ensures Decode(EscapeAll(Utf8(c)) + rest) ==
              if Decode(rest).Some? then Some([c] + Decode(rest).value) else None
  {
    var bytes := Utf8(c);
    var s := EscapeAll(bytes) + rest;
    Utf8RoundTrip(c);
    EscapedBytesRoundTrip(bytes, rest);
    assert s == Escape(bytes[0]) + (EscapeAll(bytes[1..]) + rest);
    EscapedByteRoundTrip(bytes[0], EscapeAll(bytes[1..]) + rest);
    assert s[3 * |bytes|..] == rest;
    DecodeEscapes(s, bytes, c, rest);
  }

  /** `decodeURIComponent(encodeURIComponent(s)) == s`. */
  lemma {:induction false} DecodeEncode(s: string)
    ensures Decode(Encode(s)) == Some(s)
  {
    if s != [] {
      DecodeEncode(s[1..]);
      DecodeEncodeChar(s[0], Encode(s[1..]));
      assert [s[0]] + s[1..] == s;
    }
  }

  predicate EncodedChar(c: char)
  {
    Unreserved(c) || c == '%' || IsUpperHex(c)
  }

  lemma {:induction false} EscapeAllChars(bytes: seq<Byte>)
    ensures forall c :: c in EscapeAll(bytes) ==> c == '%' || IsUpperHex(c)
  {
    if bytes != [] {
      EscapeAllChars(bytes[1..]);
    }
  }

  /** The encoding holds only unreserved characters, `%` and hex digits. */
  lemma {:induction false} EncodeChars(s: string)
    ensures forall c :: c in Encode(s) ==> EncodedChar(c)
  {
    if s != [] {
      EncodeChars(s[1..]);
      if !Unreserved(s[0]) {
        EscapeAllChars(Utf8(s[0]));
      }
    }
  }

  /** So the encoding of a query never holds a character with a meaning in a URL's query
      string: it cannot end the parameter, start another one or end the query. */
  lemma EncodeHasNoDelimiter(s: string)
    ensures '&' !in Encode(s) && '=' !in Encode(s) && '?' !in Encode(s)
    ensures '#' !in Encode(s) && ' ' !in Encode(s) && '+' !in Encode(s)
  {
    EncodeChars(s);
    DelimitersNotEncoded();
  }

  lemma DelimitersNotEncoded()
    ensures !EncodedChar('&') && !EncodedChar('=') && !EncodedChar('?')
    ensures !EncodedChar('#') && !EncodedChar(' ') && !EncodedChar('+')
  {
  }

  /** Unreserved text is encoded as itself. */
  lemma {:induction false} EncodeUnreserved(s: string)
    requires forall i :: 0 <= i < |s| ==> Unreserved(s[i])
    ensures Encode(s) == s
  {
    if s != [] {
      EncodeUnreserved(s[1..]);
      assert [s[0]] + s[1..] == s;
    }
  }

  lemma EncodeAppend(a: string, b: string)
    ensures Encode(a + b) == Encode(a) + Encode(b)
  {
    if a != [] {
      assert (a + b)[1..] == a[1..] + b;
      EncodeAppend(a[1..], b);
    } else {
      assert a + b == b;
    }
  }
}
