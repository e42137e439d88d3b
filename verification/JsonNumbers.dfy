/** JSON numbers as bytes: printing integers, the strict number grammar, and the round trip (section 6 of RFC 8259).
    A number that is no 64-bit integer is a floating-point value; which tokens have one is the caller's to say. */
module JsonNumbers {
  import opened Common
  import opened JsonStrings

  const MIN_I64: int := -0x8000_0000_0000_0000
  const MAX_I64: int := 0x7FFF_FFFF_FFFF_FFFF

  const MINUS: Byte := 0x2D
  const PLUS: Byte := 0x2B
  const POINT: Byte := 0x2E
  const ZERO: Byte := 0x30

  datatype Number = Signed(i: int) | Unsigned(n: nat) | Floating(token: Text)

  /** Whether a token has a floating-point value in range. */
  type Representable = Text -> bool

  predicate IsDigit(c: Byte) { 0x30 <= c <= 0x39 }

  predicate IsExponentMark(c: Byte) { c == 0x65 || c == 0x45 }

  // ---------------------------------------------------------------- printing

  function Digits(n: nat): (r: Text)
    ensures |r| > 0
  {
    if n < 10 then [ZERO + n] else Digits(n / 10) + [ZERO + n % 10]
  }

  function Integer(i: int): Text { if i < 0 then [MINUS] + Digits(-i) else Digits(i) }

  // ---------------------------------------------------------------- reading

  /** How many digits stand at the front. */
  function DigitRun(s: Text): (n: nat)
    ensures n <= |s| && (n < |s| ==> !IsDigit(s[n]))
    ensures forall i :: 0 <= i < n ==> IsDigit(s[i])
  {
    if s == [] || !IsDigit(s[0]) then 0 else 1 + DigitRun(s[1..])
  }

  predicate DigitAt(s: Text, i: nat) { i < |s| && IsDigit(s[i]) }

  /** Where a run of digits starting at i ends; a run of none is refused. */
  function DigitsEnd(s: Text, i: nat): (r: Option<nat>)
    ensures r.Some? ==> i < r.value <= |s|
  {
    if !DigitAt(s, i) then None else Some(i + DigitRun(s[i..]))
  }

  /** Where the integer part starting at i ends: no leading zeros. */
  function IntegerEnd(s: Text, i: nat): (r: Option<nat>)
    ensures r.Some? ==> i < r.value <= |s|
  {
    if !DigitAt(s, i) then None
    else if s[i] == ZERO then if DigitAt(s, i + 1) then None else Some(i + 1)
    else DigitsEnd(s, i)
  }

  function FractionEnd(s: Text, i: nat): (r: Option<nat>)
    requires i <= |s|
    ensures r.Some? ==> i <= r.value <= |s|
  {
    if i < |s| && s[i] == POINT then DigitsEnd(s, i + 1) else Some(i)
  }

  function ExponentEnd(s: Text, i: nat): (r: Option<nat>)
    requires i <= |s|
    ensures r.Some? ==> i <= r.value <= |s|
  {
    if i < |s| && IsExponentMark(s[i]) then
      DigitsEnd(s, if i + 1 < |s| && (s[i + 1] == PLUS || s[i + 1] == MINUS) then i + 2 else i + 1)
    else Some(i)
  }

  function Value(digits: Text): nat
    requires forall i :: 0 <= i < |digits| ==> IsDigit(digits[i])
  {
    if digits == [] then 0
    else
      var last := digits[|digits| - 1];
      assert IsDigit(last);
      10 * Value(digits[..|digits| - 1]) + (last - ZERO)
  }

  predicate AllDigits(s: Text) { forall i :: 0 <= i < |s| ==> IsDigit(s[i]) }

  /** The value of a token whose grammar was checked. */
  function TokenValue(token: Text, integral: bool, representable: Representable): Option<Number> {
    var negative := token != [] && token[0] == MINUS;
    var digits := if negative then token[1..] else token;
    if integral && AllDigits(digits) && negative && 0 - Value(digits) >= MIN_I64 then Some(Signed(0 - Value(digits)))
    else if integral && AllDigits(digits) && !negative && Value(digits) <= MAX_U64 then Some(Unsigned(Value(digits)))
    else if representable(token) then Some(Floating(token))
    else None
  }

  /** Where the integer part of the number at the front ends, its sign included. */
  function WholeEnd(s: Text): (r: Option<nat>)
    ensures r.Some? ==> 0 < r.value <= |s|
  {
    IntegerEnd(s, if s != [] && s[0] == MINUS then 1 else 0)
  }

  /** Where a fraction and an exponent after i end. */
  function TailEnd(s: Text, i: nat): (r: Option<nat>)
    requires i <= |s|
    ensures r.Some? ==> i <= r.value <= |s|
  {
    var fraction := FractionEnd(s, i);
    if fraction.None? then None else ExponentEnd(s, fraction.value)
  }

  /** Where the integer part of the number at the front ends, and where the number does. */
  function NumberEnd(s: Text): (r: Option<(nat, nat)>)
    ensures r.Some? ==> 0 < r.value.0 <= r.value.1 <= |s|
  {
    var whole := WholeEnd(s);
    if whole.None? then None
    else
      var end := TailEnd(s, whole.value);
      if end.None? then None else Some((whole.value, end.value))
  }

  function ReadNumber(s: Text, representable: Representable): (r: Parsed<Number>)
    ensures r.Success? ==> |r.rest| < |s|
  {
    var ends := NumberEnd(s);
    if ends.None? then Failure
    else
      var (whole, end) := ends.value;
      var value := TokenValue(s[..end], end == whole, representable);
      if value.None? then Failure else Success(value.value, s[end..])
  }

  // ---------------------------------------------------------------- round trip

  lemma {:induction false} DigitsAreDigits(n: nat)
    ensures AllDigits(Digits(n)) && (Digits(n)[0] == ZERO ==> |Digits(n)| == 1)
    ensures n > 0 ==> Digits(n)[0] != ZERO
  {
    if n >= 10 { DigitsAreDigits(n / 10); }
  }

  lemma {:induction false} ValueOfDigits(n: nat)
    ensures AllDigits(Digits(n)) && Value(Digits(n)) == n
  {
    DigitsAreDigits(n);
    if n >= 10 {
      ValueOfDigits(n / 10);
      assert Digits(n)[..|Digits(n)| - 1] == Digits(n / 10);
    } else {
      assert Digits(n)[..0] == [];
    }
  }

  lemma {:induction false} RunOfDigits(digits: Text, more: Text)
    requires AllDigits(digits) && (more != [] ==> !IsDigit(more[0]))
    ensures DigitRun(digits + more) == |digits|
  {
    if digits == [] {
      assert digits + more == more;
    } else {
      assert (digits + more)[1..] == digits[1..] + more;
      RunOfDigits(digits[1..], more);
    }
  }

  /** What may follow a printed number without being taken for a part of it. */
  predicate EndsNumber(more: Text) {
    more != [] ==> !IsDigit(more[0]) && more[0] != POINT && !IsExponentMark(more[0])
  }

  lemma IntegerEndOfDigits(prefix: Text, n: nat, more: Text)
    requires EndsNumber(more)
    ensures IntegerEnd(prefix + Digits(n) + more, |prefix|) == Some(|prefix| + |Digits(n)|)
  {
    var s := prefix + Digits(n) + more;
    DigitsAreDigits(n);
    assert s[|prefix|] == Digits(n)[0];
    assert s[|prefix|..] == Digits(n) + more;
    RunOfDigits(Digits(n), more);
  }

  /** The token of a printed integer is read to its end and no further. */
  lemma TokenEnds(prefix: Text, n: nat, more: Text)
    requires EndsNumber(more)
    ensures var s, end := prefix + Digits(n) + more, |prefix| + |Digits(n)|;
            && FractionEnd(s, end) == Some(end) && ExponentEnd(s, end) == Some(end)
            && s[end..] == more && s[..end] == prefix + Digits(n)
  {
  }

  lemma ReadBy(s: Text, start: nat, end: nat, value: Number, representable: Representable)
    requires start == (if s != [] && s[0] == MINUS then 1 else 0) && IntegerEnd(s, start) == Some(end)
    requires FractionEnd(s, end) == Some(end) && ExponentEnd(s, end) == Some(end)
    requires TokenValue(s[..end], true, representable) == Some(value)
    ensures ReadNumber(s, representable) == Success(value, s[end..])
  {
  }

  lemma TokenOfDigits(n: nat, representable: Representable)
    requires n <= MAX_U64
    ensures Digits(n)[0] != MINUS && TokenValue(Digits(n), true, representable) == Some(Unsigned(n))
  {
    DigitsAreDigits(n);
    ValueOfDigits(n);
  }

  lemma TokenOfNegative(n: nat, representable: Representable)
    requires 0 - n >= MIN_I64
    ensures TokenValue([MINUS] + Digits(n), true, representable) == Some(Signed(0 - n))
  {
    DigitsAreDigits(n);
    ValueOfDigits(n);
    assert ([MINUS] + Digits(n))[1..] == Digits(n);
  }

  lemma NonNegativeReadsBack(n: nat, more: Text, representable: Representable)
    requires n <= MAX_U64 && EndsNumber(more)
    ensures ReadNumber([] + Digits(n) + more, representable) == Success(Unsigned(n), more)
  {
    TokenOfDigits(n, representable);
    IntegerEndOfDigits([], n, more);
    TokenEnds([], n, more);
    assert [] + Digits(n) == Digits(n);
    ReadBy([] + Digits(n) + more, 0, |Digits(n)|, Unsigned(n), representable);
  }

  lemma NegativeReadsBack(n: nat, more: Text, representable: Representable)
    requires 0 - n >= MIN_I64 && EndsNumber(more)
    ensures ReadNumber([MINUS] + Digits(n) + more, representable) == Success(Signed(0 - n), more)
  {
    TokenOfNegative(n, representable);
    IntegerEndOfDigits([MINUS], n, more);
    TokenEnds([MINUS], n, more);
    ReadBy([MINUS] + Digits(n) + more, 1, 1 + |Digits(n)|, Signed(0 - n), representable);
  }

  /** Every 64-bit integer reads back from its decimal form; a non-negative one reads back as unsigned. */
  lemma IntegerReadsBack(i: int, more: Text, representable: Representable)
    requires MIN_I64 <= i <= MAX_U64 && EndsNumber(more)
    ensures ReadNumber(Integer(i) + more, representable)
         == Success(if i < 0 then Signed(i) else Unsigned(i), more)
  {
    if i < 0 {
      NegativeReadsBack(-i, more, representable);
    } else {
      NonNegativeReadsBack(i, more, representable);
      assert [] + Digits(i) == Digits(i);
    }
  }
}
