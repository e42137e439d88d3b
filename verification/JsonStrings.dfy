/** JSON strings as bytes: escaping, the strict reading of a string body, and the round trip (section 7 of RFC 8259). */
module JsonStrings {
  import opened Common

  const QUOTE: Byte := 0x22
  const BACKSLASH: Byte := 0x5C
  const SLASH: Byte := 0x2F
  const LETTER_U: Byte := 0x75

  /** What a reading step leaves: a value and the unread rest, or a failure. */
  datatype Parsed<+T> = Failure | Success(value: T, rest: Text)

  // ---------------------------------------------------------------- escaping

  function HexDigit(n: nat): Byte
    requires n < 16
  {
    if n < 10 then 0x30 + n else 0x61 + (n - 10)
  }

  /** The letter that stands for a byte after a backslash, if it has one. */
  function ShortEscape(c: Byte): Option<Byte> {
    if c == QUOTE then Some(QUOTE)
    else if c == BACKSLASH then Some(BACKSLASH)
    else if c == 0x08 then Some(0x62)
    else if c == 0x0C then Some(0x66)
    else if c == 0x0A then Some(0x6E)
    else if c == 0x0D then Some(0x72)
    else if c == 0x09 then Some(0x74)
    else None
  }

  function EscapedByte(c: Byte): (r: Text)
    ensures |r| > 0 && r[0] != QUOTE
  {
    if ShortEscape(c).Some? then [BACKSLASH, ShortEscape(c).value]
    else if c < 0x20 then [BACKSLASH, LETTER_U, 0x30, 0x30, HexDigit(c / 16), HexDigit(c % 16)]
    else [c]
  }

  function EscapedBody(text: Text): Text {
    if text == [] then [] else EscapedByte(text[0]) + EscapedBody(text[1..])
  }

  function Escaped(text: Text): Text { [QUOTE] + EscapedBody(text) + [QUOTE] }

  // ---------------------------------------------------------------- reading

  function HexValue(c: Byte): Option<nat> {
    if 0x30 <= c <= 0x39 then Some(c - 0x30)
    else if 0x61 <= c <= 0x66 then Some(c - 0x61 + 10)
    else if 0x41 <= c <= 0x46 then Some(c - 0x41 + 10)
    else None
  }

  /** The number written by some hex digits, most significant first. */
  function HexNumber(digits: Text): Option<nat> {
    if digits == [] then Some(0)
    else
      var high, low := HexNumber(digits[..|digits| - 1]), HexValue(digits[|digits| - 1]);
      if high.None? || low.None? then None else Some(16 * high.value + low.value)
  }

  function Hex4(s: Text): (r: Parsed<nat>)
    ensures r.Success? ==> |r.rest| < |s|
  {
    if |s| < 4 || HexNumber(s[..4]).None? then Failure else Success(HexNumber(s[..4]).value, s[4..])
  }

  /** The UTF-8 form of a code point. */
  function Utf8(c: nat): Text
    requires c < 0x110000
  {
    if c <= 0x7F then [c]
    else if c <= 0x7FF then [0xC0 + c / 64, 0x80 + c % 64]
    else if c <= 0xFFFF then [0xE0 + c / 4096, 0x80 + c / 64 % 64, 0x80 + c % 64]
    else [0xF0 + c / 262144, 0x80 + c / 4096 % 64, 0x80 + c / 64 % 64, 0x80 + c % 64]
  }

  lemma {:induction false} HexNumberBound(digits: Text)
    ensures HexNumber(digits).Some? ==> HexNumber(digits).value < Sixteen(|digits|)
  {
    if digits != [] { HexNumberBound(digits[..|digits| - 1]); }
  }

  function Sixteen(n: nat): nat { if n == 0 then 1 else 16 * Sixteen(n - 1) }

  /** What follows `\u`: one escape, or two for a code point outside the basic plane. */
  function UnicodeEscape(s: Text): (r: Parsed<Text>)
    ensures r.Success? ==> |r.rest| < |s|
  {
    var first := Hex4(s);
    if first.Failure? then Failure
    else
      assert first.value < 0x10000 by { HexNumberBound(s[..4]); assert Sixteen(4) == 0x10000; }
      if 0xD800 <= first.value <= 0xDBFF then
        if |first.rest| < 2 || first.rest[0] != BACKSLASH || first.rest[1] != LETTER_U then Failure
        else
          var second := Hex4(first.rest[2..]);
          if second.Failure? || second.value < 0xDC00 || second.value > 0xDFFF then Failure
          else Success(Utf8(0x10000 + (first.value - 0xD800) * 1024 + (second.value - 0xDC00)), second.rest)
      else if 0xDC00 <= first.value <= 0xDFFF then Failure
      else Success(Utf8(first.value), first.rest)
  }

  /** The byte a letter after a backslash stands for, if it is one of the short escapes. */
  function Unescaped(letter: Byte): Option<Byte> {
    if letter == QUOTE || letter == BACKSLASH || letter == SLASH then Some(letter)
    else if letter == 0x62 then Some(0x08)
    else if letter == 0x66 then Some(0x0C)
    else if letter == 0x6E then Some(0x0A)
    else if letter == 0x72 then Some(0x0D)
    else if letter == 0x74 then Some(0x09)
    else None
  }

  /** One character of a string body: the bytes it stands for. */
  function Character(s: Text): (r: Parsed<Text>)
    requires s != []
    ensures r.Success? ==> |r.rest| < |s|
  {
    if s[0] < 0x20 then Failure
    else if s[0] != BACKSLASH then Success([s[0]], s[1..])
    else if |s| < 2 then Failure
    else if Unescaped(s[1]).Some? then Success([Unescaped(s[1]).value], s[2..])
    else if s[1] == LETTER_U then UnicodeEscape(s[2..])
    else Failure
  }

  /** A string body up to its closing quote, after `out` was already read. */
  function Body(s: Text, out: Text, limit: nat): (r: Parsed<Text>)
    ensures r.Success? ==> |r.rest| < |s|
    decreases |s|
  {
    if s == [] then Failure
    else if s[0] == QUOTE then Success(out, s[1..])
    else
      var c := Character(s);
      if c.Failure? || |out + c.value| > limit then Failure else Body(c.rest, out + c.value, limit)
  }

  // ---------------------------------------------------------------- round trip

  lemma ControlByteReadsBack(c: Byte, more: Text)
    requires c < 0x20
    ensures UnicodeEscape([0x30, 0x30, HexDigit(c / 16), HexDigit(c % 16)] + more) == Success([c], more)
  {
    var h, l := HexDigit(c / 16), HexDigit(c % 16);
    var s := [0x30, 0x30, h, l] + more;
    assert s[..4] == [0x30, 0x30, h, l] && s[4..] == more;
    assert s[..4][..3] == [0x30, 0x30, h] && s[..4][..3][..2] == [0x30, 0x30] && s[..4][..3][..2][..1] == [0x30];
    assert [0x30][..0] == [];
    assert HexNumber([0x30]) == Some(0);
    assert HexNumber([0x30, 0x30]) == Some(0);
    assert HexNumber([0x30, 0x30, h]) == Some(c / 16);
    assert HexNumber(s[..4]) == Some(c);
  }

  lemma ByteReadsBack(c: Byte, more: Text)
    ensures Character(EscapedByte(c) + more) == Success([c], more)
  {
    var s := EscapedByte(c) + more;
    if ShortEscape(c).Some? {
      assert s[0] == BACKSLASH && s[1] == ShortEscape(c).value && s[2..] == more;
    } else if c < 0x20 {
      ControlByteReadsBack(c, more);
      assert s[2..] == [0x30, 0x30, HexDigit(c / 16), HexDigit(c % 16)] + more;
    } else {
      assert s[0] == c && s[1..] == more;
    }
  }

  /** A character other than the closing quote is added to what was read. */
  lemma BodyStep(s: Text, out: Text, limit: nat, value: Text, rest: Text)
    requires s != [] && s[0] != QUOTE && Character(s) == Success(value, rest) && |out| + |value| <= limit
    ensures Body(s, out, limit) == Body(rest, out + value, limit)
  {
  }

  lemma {:induction false} BodyReadsTo(text: Text, tail: Text, out: Text, limit: nat)
    requires |out| + |text| <= limit && tail != [] && tail[0] == QUOTE
    ensures Body(EscapedBody(text) + tail, out, limit) == Success(out + text, tail[1..])
    decreases |text|
  {
    if text == [] {
      assert EscapedBody(text) + tail == tail && out + text == out;
    } else {
      var left := EscapedBody(text[1..]) + tail;
      assert EscapedBody(text) + tail == EscapedByte(text[0]) + left;
      ByteReadsBack(text[0], left);
      BodyStep(EscapedByte(text[0]) + left, out, limit, [text[0]], left);
      BodyReadsTo(text[1..], tail, out + [text[0]], limit);
      assert out + [text[0]] + text[1..] == out + text;
    }
  }

  /** Every byte string within the limit reads back from its escaped form. */
  lemma BodyReadsBack(text: Text, more: Text, out: Text, limit: nat)
    requires |out| + |text| <= limit
    ensures Body(EscapedBody(text) + [QUOTE] + more, out, limit) == Success(out + text, more)
  {
    var tail := [QUOTE] + more;
    assert EscapedBody(text) + [QUOTE] + more == EscapedBody(text) + tail && tail[1..] == more;
    BodyReadsTo(text, tail, out, limit);
  }
}
