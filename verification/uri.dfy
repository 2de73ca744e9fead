/**
 * `encodeURIComponent` over Unicode scalar values: the characters
 * A-Z a-z 0-9 - _ . ! ~ * ' ( ) are kept, every other character becomes the
 * %XX escapes (upper-case hex) of its UTF-8 bytes. A decoder is given as the
 * partner that the encoding must invert.
 */
module UriEncoding {
  import opened Wrappers

  /** Characters `encodeURIComponent` leaves as they are. */
  predicate IsUnescaped(c: char) {
    ('A' <= c <= 'Z') || ('a' <= c <= 'z') || ('0' <= c <= '9')
    || c == '-' || c == '_' || c == '.' || c == '!' || c == '~' || c == '*' || c == '\'' || c == '(' || c == ')'
  }

  predicate IsUpperHexDigit(c: char) {
    ('0' <= c <= '9') || ('A' <= c <= 'F')
  }

  function HexDigit(d: int): (c: char)
    requires 0 <= d < 16
    ensures IsUpperHexDigit(c)
  {
    if d < 10 then ('0' as int + d) as char else ('A' as int + d - 10) as char
  }

  function HexValue(c: char): (d: int)
    requires IsUpperHexDigit(c)
    ensures 0 <= d < 16
    ensures HexDigit(d) == c
  {
    if c <= '9' then c as int - '0' as int else c as int - 'A' as int + 10
  }

  /** The UTF-8 encoding of one scalar value. */
  function Utf8(c: char): (bytes: seq<int>)
    ensures 1 <= |bytes| <= 4
    ensures forall i :: 0 <= i < |bytes| ==> 0 <= bytes[i] < 256
  {
    var n := c as int;
    if n < 0x80 then [n]
    else if n < 0x800 then [0xC0 + n / 64, 0x80 + n % 64]
    else if n < 0x10000 then [0xE0 + n / 4096, 0x80 + (n / 64) % 64, 0x80 + n % 64]
    else [0xF0 + n / 262144, 0x80 + (n / 4096) % 64, 0x80 + (n / 64) % 64, 0x80 + n % 64]
  }

  /** `%XX` for one byte. */
  function Escape(b: int): (s: string)
    requires 0 <= b < 256
    ensures |s| == 3 && s[0] == '%' && IsUpperHexDigit(s[1]) && IsUpperHexDigit(s[2])
  {
    ['%', HexDigit(b / 16), HexDigit(b % 16)]
  }

  function EscapeAll(bytes: seq<int>): (s: string)
    requires forall i :: 0 <= i < |bytes| ==> 0 <= bytes[i] < 256
    ensures |s| == 3 * |bytes|
  {
    if |bytes| == 0 then [] else Escape(bytes[0]) + EscapeAll(bytes[1..])
  }

  function EncodeChar(c: char): string {
    if IsUnescaped(c) then [c] else EscapeAll(Utf8(c))
  }

  /** Every character of an encoding is an unescaped character, `%`, or an upper-case hex digit. */
  predicate IsUriSafe(s: string) {
    forall i :: 0 <= i < |s| ==> IsUnescaped(s[i]) || s[i] == '%' || IsUpperHexDigit(s[i])
  }

  /** `encodeURIComponent`. */
  function EncodeUriComponent(s: string): (r: string)
    ensures IsUriSafe(r)
    ensures |r| >= |s|
    ensures (forall i :: 0 <= i < |s| ==> IsUnescaped(s[i])) ==> r == s
  {
    if |s| == 0 then []
    else
      var head := EncodeChar(s[0]);
      assert IsUriSafe(head) by {
        if !IsUnescaped(s[0]) {
          EscapeAllSafe(Utf8(s[0]));
        }
      }
      head + EncodeUriComponent(s[1..])
  }

  lemma {:induction false} EscapeAllSafe(bytes: seq<int>)
    requires forall i :: 0 <= i < |bytes| ==> 0 <= bytes[i] < 256
    ensures IsUriSafe(EscapeAll(bytes))
    decreases |bytes|
  {
    if |bytes| > 0 {
      EscapeAllSafe(bytes[1..]);
    }
  }

  /** Encoding works character by character, so it distributes over concatenation. */
  lemma {:induction false} EncodeAppend(a: string, b: string)
    ensures EncodeUriComponent(a + b) == EncodeUriComponent(a) + EncodeUriComponent(b)
    decreases |a|
  {
    if |a| == 0 {
      assert a + b == b;
    } else {
      assert (a + b)[1..] == a[1..] + b;
      EncodeAppend(a[1..], b);
    }
  }

  /** A space becomes `%20`. */
  lemma SpaceEscape()
    ensures EncodeUriComponent(" ") == "%20"
  {
    assert Utf8(' ') == [32];
    assert EscapeAll([32]) == Escape(32) + EscapeAll([]);
  }

  /** A space between two words is encoded as `%20`, as in `Dragon%20longsword`. */
  lemma SpaceBetweenWords(a: string, b: string)
    ensures EncodeUriComponent(a + " " + b) == EncodeUriComponent(a) + "%20" + EncodeUriComponent(b)
  {
    EncodeAppend(a + " ", b);
    EncodeAppend(a, " ");
    SpaceEscape();
  }

  // ---- Decoding, the partner the encoding must invert ----

  /** Number of bytes in the UTF-8 sequence a lead byte starts, or 0 for a byte that cannot lead. */
  function SequenceLength(lead: int): int {
    if 0 <= lead < 0x80 then 1
    else if 0xC0 <= lead < 0xE0 then 2
    else if 0xE0 <= lead < 0xF0 then 3
    else if 0xF0 <= lead < 0xF8 then 4
    else 0
  }

  /** The code point a UTF-8 sequence of the right length denotes. */
  function CodePoint(bytes: seq<int>): int
    requires 1 <= |bytes| <= 4
  {
    if |bytes| == 1 then bytes[0]
    else if |bytes| == 2 then (bytes[0] - 0xC0) * 64 + (bytes[1] - 0x80)
    else if |bytes| == 3 then (bytes[0] - 0xE0) * 4096 + (bytes[1] - 0x80) * 64 + (bytes[2] - 0x80)
    else (bytes[0] - 0xF0) * 262144 + (bytes[1] - 0x80) * 4096 + (bytes[2] - 0x80) * 64 + (bytes[3] - 0x80)
  }

  predicate IsScalarValue(n: int) {
    (0 <= n < 0xD800) || (0xE000 <= n < 0x110000)
  }

  /** Read `count` `%XX` escapes from the front of `s`. */
  function ReadEscapes(s: string, count: nat): (r: Option<seq<int>>)
    ensures r.Some? ==> |r.value| == count && |s| >= 3 * count
    decreases count
  {
    if count == 0 then Some([])
    else if |s| < 3 || s[0] != '%' || !IsUpperHexDigit(s[1]) || !IsUpperHexDigit(s[2]) then None
    else
      match ReadEscapes(s[3..], count - 1)
      case None => None
      case Some(rest) => Some([HexValue(s[1]) * 16 + HexValue(s[2])] + rest)
  }

  /** `decodeURIComponent` restricted to upper-case escapes; `None` on malformed input. */
  function DecodeUriComponent(s: string): (r: Option<string>)
    ensures r.Some? ==> |r.value| <= |s|
    ensures (forall i :: 0 <= i < |s| ==> s[i] != '%') ==> r == Some(s)
    ensures |s| > 0 && s[0] == '%' && (|s| < 3 || !IsUpperHexDigit(s[1]) || !IsUpperHexDigit(s[2])) ==> r.None?
    decreases |s|
  {
    if |s| == 0 then Some([])
    else if s[0] != '%' then
      assert s == [s[0]] + s[1..];
      match DecodeUriComponent(s[1..])
      case None => None
      case Some(rest) => Some([s[0]] + rest)
    else if |s| < 3 || !IsUpperHexDigit(s[1]) || !IsUpperHexDigit(s[2]) then None
    else
      var lead := HexValue(s[1]) * 16 + HexValue(s[2]);
      var n := SequenceLength(lead);
      if n == 0 then None
      else
        match ReadEscapes(s, n)
        case None => None
        case Some(bytes) =>
          var cp := CodePoint(bytes);
          if !IsScalarValue(cp) then None
          else
            match DecodeUriComponent(s[3 * n..])
            case None => None
            case Some(rest) => Some([cp as char] + rest)
  }

  lemma ByteEscapeRoundTrip(b: int)
    requires 0 <= b < 256
    ensures var e := Escape(b); HexValue(e[1]) * 16 + HexValue(e[2]) == b
  {
  }

  lemma {:induction false} ReadEscapesRoundTrip(bytes: seq<int>, tail: string)
    requires forall i :: 0 <= i < |bytes| ==> 0 <= bytes[i] < 256
    ensures ReadEscapes(EscapeAll(bytes) + tail, |bytes|) == Some(bytes)
    decreases |bytes|
  {
    if |bytes| > 0 {
      var s := EscapeAll(bytes) + tail;
      ByteEscapeRoundTrip(bytes[0]);
      assert s[3..] == EscapeAll(bytes[1..]) + tail;
      ReadEscapesRoundTrip(bytes[1..], tail);
      assert bytes == [bytes[0]] + bytes[1..];
    }
  }

  lemma Utf8RoundTrip(c: char)
    ensures SequenceLength(Utf8(c)[0]) == |Utf8(c)|
    ensures CodePoint(Utf8(c)) == c as int
  {
    var n := c as int;
    if n >= 0x800 {
      SixBitDigits(n);
    }
  }

  /** The base-64 digits the encoder takes from a code point recompose it. */
  lemma SixBitDigits(n: int)
    requires n >= 0
    ensures n == (n / 4096) * 4096 + ((n / 64) % 64) * 64 + n % 64
    ensures n == (n / 262144) * 262144 + ((n / 4096) % 64) * 4096 + ((n / 64) % 64) * 64 + n % 64
  {
    var a := n / 64;
    var b := a / 64;
    assert n == a * 64 + n % 64;
    assert a == b * 64 + a % 64;
    assert b == (b / 64) * 64 + b % 64;
    assert b == n / 4096;
    assert b / 64 == n / 262144;
  }

  lemma {:induction false} DecodeChar(c: char, tail: string)
    ensures DecodeUriComponent(EncodeChar(c) + tail) ==
            match DecodeUriComponent(tail) case None => None case Some(rest) => Some([c] + rest)
  {
    var s := EncodeChar(c) + tail;
    if IsUnescaped(c) {
      assert s[1..] == tail;
    } else {
      var bytes := Utf8(c);
      Utf8RoundTrip(c);
      ReadEscapesRoundTrip(bytes, tail);
      ByteEscapeRoundTrip(bytes[0]);
      assert s[3 * |bytes|..] == tail;
    }
  }

  /** Round trip: decoding an encoding gives back the original string. */
  lemma {:induction false} EncodeDecodeRoundTrip(s: string)
    ensures DecodeUriComponent(EncodeUriComponent(s)) == Some(s)
    decreases |s|
  {
    if |s| > 0 {
      EncodeDecodeRoundTrip(s[1..]);
      DecodeChar(s[0], EncodeUriComponent(s[1..]));
      assert s == [s[0]] + s[1..];
    }
  }

  /** Distinct names give distinct encodings. */
  lemma EncodeInjective(a: string, b: string)
    requires EncodeUriComponent(a) == EncodeUriComponent(b)
    ensures a == b
  {
    EncodeDecodeRoundTrip(a);
    EncodeDecodeRoundTrip(b);
  }
}
