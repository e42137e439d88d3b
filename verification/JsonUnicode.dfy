/** Unicode escapes in JSON strings: every code point reads back from its escape as its UTF-8 form (section 7 of
    RFC 8259, section 3 of RFC 3629). */
module JsonUnicode {
  import opened Common
  import opened JsonStrings

  predicate IsContinuation(b: Byte) { 0x80 <= b <= 0xBF }

  /** The bits a byte carries above its marker. */
  function Payload(b: Byte, marker: nat): nat
    requires b >= marker
  {
    b - marker
  }

  /** The code point of one UTF-8 sequence: the bits of the lead byte and of each continuation byte, in order; an
      overlong form is refused. */
  function DecodeUtf8(s: Text): Option<nat> {
    if |s| == 1 && s[0] <= 0x7F then Some(Payload(s[0], 0))
    else if |s| == 2 && 0xC2 <= s[0] <= 0xDF && IsContinuation(s[1]) then
      Some(64 * Payload(s[0], 0xC0) + Payload(s[1], 0x80))
    else if |s| == 3 && 0xE0 <= s[0] <= 0xEF && IsContinuation(s[1]) && IsContinuation(s[2])
            && (s[0] == 0xE0 ==> s[1] >= 0xA0) then
      Some(4096 * Payload(s[0], 0xE0) + 64 * Payload(s[1], 0x80) + Payload(s[2], 0x80))
    else if |s| == 4 && 0xF0 <= s[0] <= 0xF4 && IsContinuation(s[1]) && IsContinuation(s[2]) && IsContinuation(s[3])
            && (s[0] == 0xF0 ==> s[1] >= 0x90) then
      Some(262144 * Payload(s[0], 0xF0) + 4096 * Payload(s[1], 0x80) + 64 * Payload(s[2], 0x80) + Payload(s[3], 0x80))
    else None
  }

  /** What is written for a code point is its one well-formed UTF-8 sequence. */
  lemma Utf8IsWellFormed(c: nat)
    requires c < 0x110000
    ensures DecodeUtf8(Utf8(c)) == Some(c)
  {
    assert c / 4096 == c / 64 / 64 && c / 262144 == c / 4096 / 64;
  }

  function Hex4Text(n: nat): (r: Text)
    requires n < 0x10000
    ensures |r| == 4
  {
    [HexDigit(n / 4096), HexDigit(n / 256 % 16), HexDigit(n / 16 % 16), HexDigit(n % 16)]
  }

  lemma HexNumberNext(digits: Text, value: nat, k: nat)
    requires HexNumber(digits) == Some(value) && k < 16
    ensures HexNumber(digits + [HexDigit(k)]) == Some(16 * value + k)
  {
    assert (digits + [HexDigit(k)])[..|digits|] == digits;
  }

  lemma Hex4ReadsBack(n: nat, more: Text)
    requires n < 0x10000
    ensures Hex4(Hex4Text(n) + more) == Success(n, more)
  {
    HexNumberNext([], 0, n / 4096);
    HexNumberNext([] + [HexDigit(n / 4096)], n / 4096, n / 256 % 16);
    HexNumberNext([] + [HexDigit(n / 4096)] + [HexDigit(n / 256 % 16)], n / 256, n / 16 % 16);
    HexNumberNext([] + [HexDigit(n / 4096)] + [HexDigit(n / 256 % 16)] + [HexDigit(n / 16 % 16)], n / 16, n % 16);
    var d := Hex4Text(n);
    assert d == [] + [HexDigit(n / 4096)] + [HexDigit(n / 256 % 16)] + [HexDigit(n / 16 % 16)] + [HexDigit(n % 16)];
    assert (d + more)[..4] == d && (d + more)[4..] == more;
  }

  predicate IsSurrogate(c: nat) { 0xD800 <= c <= 0xDFFF }

  /** How a code point is written after `\\u`: directly, or as the two halves of a surrogate pair. */
  function UnicodeText(c: nat): Text
    requires c < 0x110000
  {
    if c < 0x10000 then Hex4Text(c)
    else Hex4Text(0xD800 + (c - 0x10000) / 1024) + [BACKSLASH, LETTER_U] + Hex4Text(0xDC00 + (c - 0x10000) % 1024)
  }

  /** Every code point reads back from its escape, through a surrogate pair outside the basic plane. */
  lemma UnicodeReadsBack(c: nat, more: Text)
    requires c < 0x110000 && !IsSurrogate(c)
    ensures UnicodeEscape(UnicodeText(c) + more) == Success(Utf8(c), more)
  {
    if c < 0x10000 {
      Hex4ReadsBack(c, more);
    } else {
      var high, low := 0xD800 + (c - 0x10000) / 1024, 0xDC00 + (c - 0x10000) % 1024;
      var rest := [BACKSLASH, LETTER_U] + (Hex4Text(low) + more);
      assert UnicodeText(c) + more == Hex4Text(high) + rest;
      Hex4ReadsBack(high, rest);
      assert rest[2..] == Hex4Text(low) + more;
      Hex4ReadsBack(low, more);
    }
  }

  /** The text starts with `\\u` and four hex digits for the second half of a surrogate pair. */
  predicate StartsWithLow(s: Text) {
    && |s| >= 6 && s[0] == BACKSLASH && s[1] == LETTER_U
    && HexNumber(s[2..6]).Some? && 0xDC00 <= HexNumber(s[2..6]).value <= 0xDFFF
  }

  /** An escape for half of a surrogate pair is read exactly when it is the first half and the second follows at
      once; both then stand for one code point. In every other case it is refused. */
  lemma SurrogateNeedsItsPair(c: nat, more: Text)
    requires IsSurrogate(c)
    ensures UnicodeEscape(Hex4Text(c) + more).Success? <==> c < 0xDC00 && StartsWithLow(more)
    ensures c < 0xDC00 && StartsWithLow(more) ==>
              var point := 0x10000 + (c - 0xD800) * 1024 + (HexNumber(more[2..6]).value - 0xDC00);
              UnicodeEscape(Hex4Text(c) + more) == Success(Utf8(point), more[6..])
  {
    Hex4ReadsBack(c, more);
    if |more| >= 6 { assert more[2..][..4] == more[2..6] && more[2..][4..] == more[6..]; }
  }
}
