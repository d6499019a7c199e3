/** Percent-encoding (RFC 3986 section 2.1) in the two forms the program meets:
    encodeURIComponent (ECMA-262 section 19.2.6.5), which the login URL applies
    to the redirect URI, and the WHATWG URL Standard's percent-decode (section
    1.3), which the form parser applies to every name and value. */
module Percent {
  import Utf8

  /** The characters encodeURIComponent leaves alone: ASCII letters and digits
      and the marks - _ . ! ~ * ' ( ). */
  predicate IsUnreserved(c: char)
  {
    'A' <= c <= 'Z' || 'a' <= c <= 'z' || '0' <= c <= '9' ||
    c == '-' || c == '_' || c == '.' || c == '!' || c == '~' || c == '*' || c == '\'' || c == '(' || c == ')'
  }

  predicate IsHexDigit(c: char)
  {
    '0' <= c <= '9' || 'A' <= c <= 'F' || 'a' <= c <= 'f'
  }

  /** The upper-case hexadecimal digit encodeURIComponent writes. */
  function HexDigit(n: int): (c: char)
    requires 0 <= n < 16
    ensures IsHexDigit(c) && IsUnreserved(c)
  {
    if n < 10 then ('0' as int + n) as char else ('A' as int + n - 10) as char
  }

  /** The value of a hexadecimal digit of either case. */
  function HexValue(c: char): (v: int)
    requires IsHexDigit(c)
    ensures 0 <= v < 16
    ensures forall n :: 0 <= n < 16 && HexDigit(n) == c ==> v == n
  {
    if c <= '9' then c as int - '0' as int
    else if c <= 'F' then c as int - 'A' as int + 10
    else c as int - 'a' as int + 10
  }

  /** "%XY" for one byte. */
  function PercentByte(b: Utf8.Byte): string
  {
    ['%', HexDigit(b / 16), HexDigit(b % 16)]
  }

  function PercentBytes(bs: seq<Utf8.Byte>): (r: string)
    ensures forall i :: 0 <= i < |r| ==> IsUnreserved(r[i]) || r[i] == '%'
  {
    if bs == [] then [] else PercentByte(bs[0]) + PercentBytes(bs[1..])
  }

  /** One character as encodeURIComponent writes it: itself when unreserved,
      otherwise each byte of its UTF-8 encoding as "%XY". */
  function EncodeChar(c: char): string
  {
    if IsUnreserved(c) then [c] else PercentBytes(Utf8.EncodeChar(c))
  }

  /** encodeURIComponent. The result holds nothing but unreserved characters
      and '%', so none of the delimiters : / ? # & = + survives unencoded. */
  function EncodeURIComponent(s: string): (r: string)
    ensures forall i :: 0 <= i < |r| ==> IsUnreserved(r[i]) || r[i] == '%'
    ensures forall i :: 0 <= i < |r| ==> r[i] !in {':', '/', '?', '#', '&', '=', '+'}
  {
    if s == [] then [] else EncodeChar(s[0]) + EncodeURIComponent(s[1..])
  }

  /** Percent-decode of a string: the UTF-8 bytes of the string, with each "%"
      that is followed by two hexadecimal digits replaced, together with them,
      by the byte they spell. Any other "%" stays a literal byte. Decoding
      never yields more bytes than the text's own UTF-8 encoding. */
  function PercentDecode(s: string): (r: seq<Utf8.Byte>)
    ensures |r| <= |Utf8.Encode(s)|
  {
    if s == [] then []
    else if s[0] == '%' && |s| >= 3 && IsHexDigit(s[1]) && IsHexDigit(s[2]) then
      assert s[1..][1..] == s[2..] && s[2..][1..] == s[3..];
      assert |Utf8.Encode(s)| == |Utf8.EncodeChar(s[0])| + |Utf8.Encode(s[1..])|;
      assert |Utf8.Encode(s[1..])| == |Utf8.EncodeChar(s[1])| + |Utf8.Encode(s[2..])|;
      assert |Utf8.Encode(s[2..])| == |Utf8.EncodeChar(s[2])| + |Utf8.Encode(s[3..])|;
      [HexValue(s[1]) * 16 + HexValue(s[2])] + PercentDecode(s[3..])
    else Utf8.EncodeChar(s[0]) + PercentDecode(s[1..])
  }

  /** A prefix without '%' decodes to its own UTF-8 bytes. */
  lemma {:induction false} PercentDecodePlainPrefix(a: string, b: string)
    requires '%' !in a
    ensures PercentDecode(a + b) == Utf8.Encode(a) + PercentDecode(b)
  {
    if a == [] {
      assert a + b == b;
    } else {
      var s := a + b;
      assert s[0] == a[0] && s[1..] == a[1..] + b;
      PercentDecodePlainPrefix(a[1..], b);
    }
  }

  /** A string without '%' decodes to its own UTF-8 bytes. */
  lemma PercentDecodePlain(s: string)
    requires '%' !in s
    ensures PercentDecode(s) == Utf8.Encode(s)
  {
    PercentDecodePlainPrefix(s, []);
    assert s + [] == s;
  }

  /** Decoding one "%XY" triple gives back the byte it was made from. */
  lemma PercentDecodeByte(b: Utf8.Byte, tail: string)
    ensures PercentDecode(PercentByte(b) + tail) == [b] + PercentDecode(tail)
  {
    var s := PercentByte(b) + tail;
    assert s[0] == '%' && s[1] == HexDigit(b / 16) && s[2] == HexDigit(b % 16) && s[3..] == tail;
    assert HexValue(s[1]) * 16 + HexValue(s[2]) == b;
  }

  /** Decoding "%XY" triples gives back the bytes they were made from. */
  lemma {:induction false} PercentDecodeBytes(bs: seq<Utf8.Byte>, rest: string)
    ensures PercentDecode(PercentBytes(bs) + rest) == bs + PercentDecode(rest)
  {
    if bs == [] {
      assert PercentBytes(bs) + rest == rest;
    } else {
      var tail := PercentBytes(bs[1..]) + rest;
      calc {
        PercentDecode(PercentBytes(bs) + rest);
        { assert PercentBytes(bs) == PercentByte(bs[0]) + PercentBytes(bs[1..]);
          assert PercentBytes(bs) + rest == PercentByte(bs[0]) + tail; }
        PercentDecode(PercentByte(bs[0]) + tail);
        { PercentDecodeByte(bs[0], tail); }
        [bs[0]] + PercentDecode(tail);
        { PercentDecodeBytes(bs[1..], rest); }
        [bs[0]] + (bs[1..] + PercentDecode(rest));
        { assert bs == [bs[0]] + bs[1..]; }
        bs + PercentDecode(rest);
      }
    }
  }

  lemma PercentDecodeEncodeChar(c: char, rest: string)
    ensures PercentDecode(EncodeChar(c) + rest) == Utf8.EncodeChar(c) + PercentDecode(rest)
  {
    if IsUnreserved(c) {
      var s := [c] + rest;
      assert s[0] == c && s[1..] == rest;
    } else {
      PercentDecodeBytes(Utf8.EncodeChar(c), rest);
    }
  }

  /** Decoding an encodeURIComponent result once gives back the UTF-8 bytes of
      the original string: the encoding is applied exactly once. */
  lemma {:induction false} PercentDecodeEncode(s: string)
    ensures PercentDecode(EncodeURIComponent(s)) == Utf8.Encode(s)
  {
    if s != [] {
      PercentDecodeEncodeChar(s[0], EncodeURIComponent(s[1..]));
      PercentDecodeEncode(s[1..]);
    }
  }
}
