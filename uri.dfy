/**
 * `decodeURIComponent` over ASCII escapes, and the matching encoder a client
 * uses to place a certificate number in a path segment.
 */
module Uri {
  import opened Wrappers

  function HexValue(c: char): (r: Option<nat>)
    ensures r.Some? ==> r.value < 16
  {
    if '0' <= c <= '9' then Some(c as int - '0' as int)
    else if 'A' <= c <= 'F' then Some(c as int - 'A' as int + 10)
    else if 'a' <= c <= 'f' then Some(c as int - 'a' as int + 10)
    else None
  }

  /** The upper-case hexadecimal digit `encodeURIComponent` writes. */
  function HexDigit(v: nat): (c: char)
    requires v < 16
    ensures HexValue(c) == Some(v)
  {
    if v < 10 then ('0' as int + v) as char else ('A' as int + v - 10) as char
  }

  predicate IsAscii(s: string) { forall i :: 0 <= i < |s| ==> s[i] as int < 128 }

  /**
   * Decodes every `%HH` escape. An escape that is cut short, holds a non-hex
   * digit or names a byte of 0x80 or more makes the decoder fail (a URIError).
   */
  function PercentDecode(s: string): (r: Option<string>)
    ensures '%' !in s ==> r == Some(s)
    decreases |s|
  {
    if s == [] then Some([])
    else if s[0] != '%' then
      match PercentDecode(s[1..])
      case Some(rest) => assert s == [s[0]] + s[1..]; Some([s[0]] + rest)
      case None => None
    else if |s| >= 3 && HexValue(s[1]).Some? && HexValue(s[2]).Some?
         && HexValue(s[1]).value * 16 + HexValue(s[2]).value < 128 then
      match PercentDecode(s[3..])
      case Some(rest) => Some([(HexValue(s[1]).value * 16 + HexValue(s[2]).value) as char] + rest)
      case None => None
    else None
  }

  /** The characters `encodeURIComponent` leaves as they are. */
  predicate Unreserved(c: char)
  {
    ('A' <= c <= 'Z') || ('a' <= c <= 'z') || ('0' <= c <= '9')
    || c == '-' || c == '_' || c == '.' || c == '!' || c == '~' || c == '*'
    || c == '\'' || c == '(' || c == ')'
  }

  function EncodeChar(c: char): (r: string)
    requires c as int < 128
  {
    if Unreserved(c) then [c]
    else ['%', HexDigit(c as int / 16), HexDigit(c as int % 16)]
  }

  /** `encodeURIComponent` for an ASCII string. */
  function PercentEncode(s: string): (r: string)
    requires IsAscii(s)
    ensures '/' !in r
  {
    if s == [] then ""
    else EncodeChar(s[0]) + PercentEncode(s[1..])
  }

  /** Decoding takes one encoded character off the front. */
  lemma DecodeEncodedChar(c: char, rest: string)
    requires c as int < 128
    ensures PercentDecode(EncodeChar(c) + rest) ==
      match PercentDecode(rest) case Some(r) => Some([c] + r) case None => None
  {
    var e := EncodeChar(c) + rest;
    if Unreserved(c) {
      assert e[0] == c && e[1..] == rest;
    } else {
      var hi, lo := c as int / 16, c as int % 16;
      assert e[0] == '%' && e[1] == HexDigit(hi) && e[2] == HexDigit(lo) && e[3..] == rest;
      assert (hi * 16 + lo) as char == c;
    }
  }

  /** A `%` that is not followed by two hex digits makes the whole decode fail, wherever it stands. */
  lemma {:induction false} MalformedEscapeFails(prefix: string, tail: string)
    requires '%' !in prefix
    requires |tail| < 2 || HexValue(tail[0]).None? || HexValue(tail[1]).None?
    ensures PercentDecode(prefix + "%" + tail).None?
    decreases |prefix|
  {
    var s := prefix + "%" + tail;
    if prefix == [] {
      assert s == "%" + tail && s[0] == '%';
      if |s| >= 3 {
        assert s[1] == tail[0] && s[2] == tail[1];
      }
    } else {
      MalformedEscapeFails(prefix[1..], tail);
      assert s[0] == prefix[0] && s[1..] == prefix[1..] + "%" + tail;
    }
  }

  /** Every certificate number survives a trip through the URL: decode(encode(n)) == n. */
  lemma {:induction false} DecodeEncode(s: string)
    requires IsAscii(s)
    ensures PercentDecode(PercentEncode(s)) == Some(s)
    decreases |s|
  {
    if s != [] {
      DecodeEncode(s[1..]);
      DecodeEncodedChar(s[0], PercentEncode(s[1..]));
      assert s == [s[0]] + s[1..];
    }
  }
}
