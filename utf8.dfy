/** UTF-8 as the WHATWG Encoding Standard defines it (section 9.1, "UTF-8"):
    the encoder that encodeURIComponent and the percent-decoder use, and the
    decoder in replacement mode that "UTF-8 decode without BOM" runs, where
    every malformed sequence yields U+FFFD instead of an exception. */
module Utf8 {
  type Byte = b: int | 0 <= b < 0x100

  const Replacement: char := '�'

  predicate IsScalarValue(cp: int) {
    0 <= cp < 0xD800 || 0xE000 <= cp < 0x11_0000
  }

  /** The one to four bytes that encode a code point. */
  function EncodeChar(c: char): (r: seq<Byte>)
    ensures 1 <= |r| <= 4
    ensures |r| == 1 <==> c as int < 0x80
    ensures |r| == 1 ==> r[0] == c as int
    ensures |r| > 1 ==> forall i :: 0 <= i < |r| ==> r[i] >= 0x80
  {
    var cp := c as int;
    if cp < 0x80 then [cp]
    else if cp < 0x800 then [0xC0 + cp / 64, 0x80 + cp % 64]
    else if cp < 0x1_0000 then [0xE0 + cp / 4096, 0x80 + cp / 64 % 64, 0x80 + cp % 64]
    else [0xF0 + cp / 262144, 0x80 + cp / 4096 % 64, 0x80 + cp / 64 % 64, 0x80 + cp % 64]
  }

  function Encode(s: string): seq<Byte>
  {
    if s == [] then [] else EncodeChar(s[0]) + Encode(s[1..])
  }

  lemma {:induction false} EncodeAppend(a: string, b: string)
    ensures Encode(a + b) == Encode(a) + Encode(b)
  {
    if a == [] {
      assert a + b == b;
    } else {
      assert (a + b)[0] == a[0] && (a + b)[1..] == a[1..] + b;
      EncodeAppend(a[1..], b);
      calc {
        Encode(a + b);
        EncodeChar(a[0]) + Encode(a[1..] + b);
        EncodeChar(a[0]) + (Encode(a[1..]) + Encode(b));
        (EncodeChar(a[0]) + Encode(a[1..])) + Encode(b);
      }
    }
  }

  /** The state of the decoder: "UTF-8 code point", "bytes seen", "bytes needed",
      "lower boundary" and "upper boundary". */
  datatype Decoder = Decoder(codePoint: int, bytesSeen: nat, bytesNeeded: nat, lower: int, upper: int)

  const Initial := Decoder(0, 0, 0, 0x80, 0xBF)

  function Pow64(k: nat): nat
  {
    if k == 0 then 1 else 64 * Pow64(k - 1)
  }

  /** The states the decoder can be in: idle, or part-way through a sequence
      every completion of which (the next byte within the boundaries, any
      continuation bytes after it) is a Unicode scalar value. */
  ghost predicate Consistent(d: Decoder)
  {
    if d.bytesNeeded == 0 then d == Initial
    else
      d.bytesSeen < d.bytesNeeded <= 3 && 0x80 <= d.lower <= d.upper <= 0xBF &&
      var k := Pow64(d.bytesNeeded - d.bytesSeen - 1);
      var lo := (d.codePoint * 64 + d.lower - 0x80) * k;
      var hi := (d.codePoint * 64 + d.upper - 0x80 + 1) * k;
      0 <= lo && hi <= 0x11_0000 && (hi <= 0xD800 || 0xE000 <= lo)
  }

  /** The state after a lead byte of a multi-byte sequence. */
  function Lead(b: Byte): (d: Decoder)
    requires 0xC2 <= b <= 0xF4
    ensures Consistent(d) && d.bytesNeeded > 0
  {
    if b <= 0xDF then
      assert Pow64(0) == 1;
      Decoder(b % 0x20, 0, 1, 0x80, 0xBF)
    else if b <= 0xEF then
      assert Pow64(1) == 64;
      Decoder(b % 0x10, 0, 2, if b == 0xE0 then 0xA0 else 0x80, if b == 0xED then 0x9F else 0xBF)
    else
      assert Pow64(2) == 4096;
      Decoder(b % 0x08, 0, 3, if b == 0xF0 then 0x90 else 0x80, if b == 0xF4 then 0x8F else 0xBF)
  }

  /** Accepting a continuation byte that is within the boundaries keeps the
      decoder consistent, and the last one completes a scalar value. */
  lemma Continue(d: Decoder, b: Byte)
    requires Consistent(d) && d.bytesNeeded > 0 && d.lower <= b <= d.upper
    ensures d.bytesSeen + 1 == d.bytesNeeded ==> IsScalarValue(d.codePoint * 64 + b % 0x40)
    ensures d.bytesSeen + 1 < d.bytesNeeded ==>
      Consistent(Decoder(d.codePoint * 64 + b % 0x40, d.bytesSeen + 1, d.bytesNeeded, 0x80, 0xBF))
  {
    assert b % 0x40 == b - 0x80;
    var x := d.codePoint * 64 + b - 0x80;
    var r := d.bytesNeeded - d.bytesSeen - 1;
    assert Pow64(0) == 1 && Pow64(1) == 64 && Pow64(2) == 4096;
    if r == 1 {
      assert (d.codePoint * 64 + d.lower - 0x80) * 64 <= x * 64;
      assert (x + 1) * 64 <= (d.codePoint * 64 + d.upper - 0x80 + 1) * 64;
    } else if r == 2 {
      assert (d.codePoint * 64 + d.lower - 0x80) * 4096 <= x * 4096;
      assert (x + 1) * 4096 <= (d.codePoint * 64 + d.upper - 0x80 + 1) * 4096;
      assert (x * 64) * 64 == x * 4096;
      assert (x * 64 + 64) * 64 == (x + 1) * 4096;
    }
  }

  /** The decoder run over a byte sequence from a given state. A byte that
      does not fit the sequence in progress is put back and decoded afresh. */
  function DecodeFrom(bytes: seq<Byte>, d: Decoder): string
    requires Consistent(d)
    decreases |bytes|, d.bytesNeeded
  {
    if bytes == [] then
      if d.bytesNeeded != 0 then [Replacement] else []
    else
      var b := bytes[0];
      if d.bytesNeeded == 0 then
        if b < 0x80 then [b as char] + DecodeFrom(bytes[1..], Initial)
        else if 0xC2 <= b <= 0xF4 then DecodeFrom(bytes[1..], Lead(b))
        else [Replacement] + DecodeFrom(bytes[1..], Initial)
      else if b < d.lower || d.upper < b then
        [Replacement] + DecodeFrom(bytes, Initial)
      else
        Continue(d, b);
        var cp := d.codePoint * 64 + b % 0x40;
        if d.bytesSeen + 1 == d.bytesNeeded then
          [cp as char] + DecodeFrom(bytes[1..], Initial)
        else
          DecodeFrom(bytes[1..], Decoder(cp, d.bytesSeen + 1, d.bytesNeeded, 0x80, 0xBF))
  }

  /** "UTF-8 decode without BOM": a leading U+FEFF is kept like any other character. */
  function Decode(bytes: seq<Byte>): (r: string)
    ensures |r| <= |bytes|
  {
    DecodeFromLength(bytes, Initial);
    DecodeFrom(bytes, Initial)
  }

  /** Every character the decoder emits, the replacement characters
      included, accounts for at least one byte: a sequence left unfinished
      at the end accounts for its lead byte. */
  lemma {:induction false} DecodeFromLength(bytes: seq<Byte>, d: Decoder)
    requires Consistent(d)
    ensures |DecodeFrom(bytes, d)| <= |bytes| + (if d.bytesNeeded != 0 then 1 else 0)
    decreases |bytes|, d.bytesNeeded
  {
    if bytes != [] {
      var b := bytes[0];
      if d.bytesNeeded == 0 {
        if b < 0x80 || !(0xC2 <= b <= 0xF4) {
          DecodeFromLength(bytes[1..], Initial);
        } else {
          DecodeFromLength(bytes[1..], Lead(b));
        }
      } else if b < d.lower || d.upper < b {
        DecodeFromLength(bytes, Initial);
      } else {
        Continue(d, b);
        var cp := d.codePoint * 64 + b % 0x40;
        if d.bytesSeen + 1 == d.bytesNeeded {
          DecodeFromLength(bytes[1..], Initial);
        } else {
          DecodeFromLength(bytes[1..], Decoder(cp, d.bytesSeen + 1, d.bytesNeeded, 0x80, 0xBF));
        }
      }
    }
  }

  lemma DecodeEncodeOne(c: char, rest: seq<Byte>)
    requires c as int < 0x80
    ensures DecodeFrom(EncodeChar(c) + rest, Initial) == [c] + DecodeFrom(rest, Initial)
  {
    var s := EncodeChar(c) + rest;
    assert s[0] == c as int && s[1..] == rest;
  }

  /** A lead byte of a multi-byte sequence starts that sequence. */
  lemma StepLead(b: Byte, tail: seq<Byte>)
    requires 0xC2 <= b <= 0xF4
    ensures DecodeFrom([b] + tail, Initial) == DecodeFrom(tail, Lead(b))
  {
    var s := [b] + tail;
    assert s[0] == b && s[1..] == tail;
  }

  /** One continuation byte, not the last of its sequence. */
  lemma StepMiddle(d: Decoder, b: Byte, tail: seq<Byte>)
    requires Consistent(d) && d.bytesNeeded > 0
    requires d.lower <= b <= d.upper && d.bytesSeen + 1 < d.bytesNeeded
    ensures Consistent(Decoder(d.codePoint * 64 + b % 0x40, d.bytesSeen + 1, d.bytesNeeded, 0x80, 0xBF))
    ensures DecodeFrom([b] + tail, d)
         == DecodeFrom(tail, Decoder(d.codePoint * 64 + b % 0x40, d.bytesSeen + 1, d.bytesNeeded, 0x80, 0xBF))
  {
    Continue(d, b);
    var s := [b] + tail;
    assert s[0] == b && s[1..] == tail;
  }

  /** The last continuation byte of a sequence completes its code point. */
  lemma StepLast(d: Decoder, b: Byte, tail: seq<Byte>)
    requires Consistent(d) && d.bytesNeeded > 0
    requires d.lower <= b <= d.upper && d.bytesSeen + 1 == d.bytesNeeded
    ensures IsScalarValue(d.codePoint * 64 + b % 0x40)
    ensures DecodeFrom([b] + tail, d) == [(d.codePoint * 64 + b % 0x40) as char] + DecodeFrom(tail, Initial)
  {
    Continue(d, b);
    var s := [b] + tail;
    assert s[0] == b && s[1..] == tail;
  }

  lemma DecodeEncodeTwo(c: char, rest: seq<Byte>)
    requires 0x80 <= c as int < 0x800
    ensures DecodeFrom(EncodeChar(c) + rest, Initial) == [c] + DecodeFrom(rest, Initial)
  {
    var cp := c as int;
    var b0, b1 := 0xC0 + cp / 64, 0x80 + cp % 64;
    assert EncodeChar(c) + rest == [b0] + ([b1] + rest);
    StepLead(b0, [b1] + rest);
    assert Lead(b0) == Decoder(cp / 64, 0, 1, 0x80, 0xBF);
    StepLast(Lead(b0), b1, rest);
    assert cp / 64 * 64 + b1 % 0x40 == cp;
  }

  /** The arithmetic behind the three-byte form: each byte carries six bits. */
  lemma ThreeByteDigits(c: char)
    requires 0x800 <= c as int < 0x1_0000
    ensures var cp := c as int;
      0xE0 <= 0xE0 + cp / 4096 <= 0xEF &&
      var d := Lead(0xE0 + cp / 4096);
      d.codePoint == cp / 4096 && d.bytesSeen == 0 && d.bytesNeeded == 2 &&
      d.lower <= 0x80 + cp / 64 % 64 <= d.upper &&
      cp / 4096 * 64 + (0x80 + cp / 64 % 64) % 0x40 == cp / 64 &&
      cp / 64 * 64 + (0x80 + cp % 64) % 0x40 == cp
  {
    var cp := c as int;
    var m := cp / 64;
    assert m / 64 == cp / 4096;
  }

  lemma DecodeEncodeThree(c: char, rest: seq<Byte>)
    requires 0x800 <= c as int < 0x1_0000
    ensures DecodeFrom(EncodeChar(c) + rest, Initial) == [c] + DecodeFrom(rest, Initial)
  {
    var cp := c as int;
    ThreeByteDigits(c);
    var b0, b1, b2 := 0xE0 + cp / 4096, 0x80 + cp / 64 % 64, 0x80 + cp % 64;
    assert EncodeChar(c) + rest == [b0] + ([b1] + ([b2] + rest));
    var d := Lead(b0);
    StepLead(b0, [b1] + ([b2] + rest));
    StepMiddle(d, b1, [b2] + rest);
    StepLast(Decoder(cp / 64, 1, 2, 0x80, 0xBF), b2, rest);
  }

  /** The arithmetic behind the four-byte form: each byte carries six bits. */
  lemma FourByteDigits(cp: int)
    requires 0x1_0000 <= cp < 0x11_0000
    ensures 0xF0 <= 0xF0 + cp / 262144 <= 0xF4
    ensures var d := Lead(0xF0 + cp / 262144);
      d.codePoint == cp / 262144 && d.bytesSeen == 0 && d.bytesNeeded == 3 &&
      d.lower <= 0x80 + cp / 4096 % 64 <= d.upper
    ensures cp / 262144 * 64 + (0x80 + cp / 4096 % 64) % 0x40 == cp / 4096
    ensures cp / 4096 * 64 + (0x80 + cp / 64 % 64) % 0x40 == cp / 64
    ensures cp / 64 * 64 + (0x80 + cp % 64) % 0x40 == cp
  {
    var m := cp / 64;
    var h := m / 64;
    assert h == cp / 4096 && h / 64 == cp / 262144;
  }

  lemma DecodeEncodeFour(c: char, rest: seq<Byte>)
    requires 0x1_0000 <= c as int
    ensures DecodeFrom(EncodeChar(c) + rest, Initial) == [c] + DecodeFrom(rest, Initial)
  {
    var cp := c as int;
    FourByteDigits(cp);
    EncodeFour(c, rest);
    FourSteps(0xF0 + cp / 262144, 0x80 + cp / 4096 % 64, 0x80 + cp / 64 % 64, 0x80 + cp % 64,
              cp / 4096, cp / 64, c, rest);
  }

  /** A four-byte sequence whose bytes fit the decoder's boundaries and
      combine, six bits at a time, into c decodes to c. */
  lemma FourSteps(b0: Byte, b1: Byte, b2: Byte, b3: Byte, x1: int, x2: int, c: char, rest: seq<Byte>)
    requires 0xF0 <= b0 <= 0xF4
    requires Lead(b0).bytesSeen == 0 && Lead(b0).bytesNeeded == 3
    requires Lead(b0).lower <= b1 <= Lead(b0).upper && Lead(b0).codePoint * 64 + b1 % 0x40 == x1
    requires 0x80 <= b2 <= 0xBF && x1 * 64 + b2 % 0x40 == x2
    requires 0x80 <= b3 <= 0xBF && x2 * 64 + b3 % 0x40 == c as int
    ensures DecodeFrom([b0] + ([b1] + ([b2] + ([b3] + rest))), Initial) == [c] + DecodeFrom(rest, Initial)
  {
    var d1 := Lead(b0);
    StepLead(b0, [b1] + ([b2] + ([b3] + rest)));
    StepMiddleTo(d1, b1, [b2] + ([b3] + rest), x1);
    StepMiddleTo(Decoder(x1, 1, 3, 0x80, 0xBF), b2, [b3] + rest, x2);
    StepLastTo(Decoder(x2, 2, 3, 0x80, 0xBF), b3, rest, c);
  }

  /** The four bytes of a supplementary character, one by one. */
  lemma EncodeFour(c: char, rest: seq<Byte>)
    requires 0x1_0000 <= c as int
    ensures var cp := c as int;
      EncodeChar(c) + rest
      == [0xF0 + cp / 262144] + ([0x80 + cp / 4096 % 64] + ([0x80 + cp / 64 % 64] + ([0x80 + cp % 64] + rest)))
  {
  }

  /** StepMiddle, with the new code point given. */
  lemma StepMiddleTo(d: Decoder, b: Byte, tail: seq<Byte>, next: int)
    requires Consistent(d) && d.bytesNeeded > 0
    requires d.lower <= b <= d.upper && d.bytesSeen + 1 < d.bytesNeeded
    requires d.codePoint * 64 + b % 0x40 == next
    ensures Consistent(Decoder(next, d.bytesSeen + 1, d.bytesNeeded, 0x80, 0xBF))
    ensures DecodeFrom([b] + tail, d) == DecodeFrom(tail, Decoder(next, d.bytesSeen + 1, d.bytesNeeded, 0x80, 0xBF))
  {
    StepMiddle(d, b, tail);
  }

  /** StepLast, with the character completed given. */
  lemma StepLastTo(d: Decoder, b: Byte, tail: seq<Byte>, c: char)
    requires Consistent(d) && d.bytesNeeded > 0
    requires d.lower <= b <= d.upper && d.bytesSeen + 1 == d.bytesNeeded
    requires d.codePoint * 64 + b % 0x40 == c as int
    ensures DecodeFrom([b] + tail, d) == [c] + DecodeFrom(tail, Initial)
  {
    StepLast(d, b, tail);
  }

  lemma DecodeEncodeChar(c: char, rest: seq<Byte>)
    ensures DecodeFrom(EncodeChar(c) + rest, Initial) == [c] + DecodeFrom(rest, Initial)
  {
    if c as int < 0x80 {
      DecodeEncodeOne(c, rest);
    } else if c as int < 0x800 {
      DecodeEncodeTwo(c, rest);
    } else if c as int < 0x1_0000 {
      DecodeEncodeThree(c, rest);
    } else {
      DecodeEncodeFour(c, rest);
    }
  }

  /** Decoding undoes encoding: every string survives a UTF-8 round trip. */
  lemma {:induction false} DecodeEncode(s: string)
    ensures Decode(Encode(s)) == s
  {
    if s != [] {
      DecodeEncodeChar(s[0], Encode(s[1..]));
      DecodeEncode(s[1..]);
      assert s == [s[0]] + s[1..];
    }
  }
}
