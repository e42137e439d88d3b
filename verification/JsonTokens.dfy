/** Strings and numbers are read exactly as the grammar writes them: every token of the grammar is read to its end, and
    whatever is read is a token of the grammar. */
module JsonTokens {
  import opened Common
  import opened JsonStrings
  import opened JsonNumbers
  import opened JsonValues
  import opened JsonGrammar

  // ---------------------------------------------------------------- white space

  lemma {:induction false} SkipWhite(w: Text, s: Text)
    requires White(w) && (s != [] ==> s[0] !in WHITE)
    ensures Skip(w + s) == s
  {
    if w == [] {
      assert w + s == s;
      if s != [] { SpacesAreFour(s[0]); }
    } else {
      SpacesAreFour(w[0]);
      assert (w + s)[1..] == w[1..] + s;
      SkipWhite(w[1..], s);
    }
  }

  lemma {:induction false} SkipSplits(s: Text) returns (w: Text)
    ensures White(w) && s == w + Skip(s)
  {
    if s != [] && IsSpace(s[0]) {
      SpacesAreFour(s[0]);
      var rest := SkipSplits(s[1..]);
      w := [s[0]] + rest;
      assert s == [s[0]] + s[1..];
    } else {
      w := [];
      assert [] + s == s;
    }
  }

  lemma WhiteJoins(a: Text, b: Text)
    requires White(a) && White(b)
    ensures White(a + b)
  {
  }

  // ---------------------------------------------------------------- characters

  lemma Hex4Complete(digits: Text, more: Text)
    requires FourHex(digits)
    ensures Hex4(digits + more) == Success(HexNumber(digits).value, more)
  {
    assert (digits + more)[..4] == digits && (digits + more)[4..] == more;
  }

  lemma PointComplete(digits: Text, more: Text)
    requires UnitOk(Point(digits))
    ensures UnicodeEscape(digits + more) == Success(UnitBytes(Point(digits)), more)
  {
    Hex4Complete(digits, more);
  }

  lemma PairComplete(high: Text, low: Text, more: Text)
    requires UnitOk(Pair(high, low))
    ensures UnicodeEscape(high + (ESCAPE_U + (low + more))) == Success(UnitBytes(Pair(high, low)), more)
  {
    var rest := ESCAPE_U + (low + more);
    Hex4Complete(high, rest);
    assert rest[0] == BACKSLASH && rest[1] == LETTER_U && rest[2..] == low + more;
    Hex4Complete(low, more);
  }

  lemma EscapeBegins(rest: Text)
    ensures Character(ESCAPE_U + rest) == UnicodeEscape(rest)
  {
    var s := ESCAPE_U + rest;
    assert s[0] == BACKSLASH && s[1] == LETTER_U && s[2..] == rest;
  }

  lemma ShortComplete(letter: Byte, more: Text)
    requires letter in SHORTS
    ensures Character([BACKSLASH, letter] + more) == Success([SHORTS[letter]], more)
  {
    var s := [BACKSLASH, letter] + more;
    assert s[0] == BACKSLASH && s[1] == letter && s[2..] == more;
  }

  lemma RawComplete(c: Byte, more: Text)
    requires UnitOk(Raw(c))
    ensures Character([c] + more) == Success([c], more)
  {
    assert ([c] + more)[0] == c && ([c] + more)[1..] == more;
  }

  /** A character of the grammar is read to its end, and is no closing quote. */
  lemma CharacterComplete(u: Unit, more: Text)
    requires UnitOk(u)
    ensures Character(UnitText(u) + more) == Success(UnitBytes(u), more) && UnitText(u)[0] != QUOTE
  {
    match u
    case Raw(c) => RawComplete(c, more);
    case Short(letter) => ShortComplete(letter, more);
    case Point(digits) =>
      assert ESCAPE_U + digits + more == ESCAPE_U + (digits + more);
      EscapeBegins(digits + more);
      PointComplete(digits, more);
    case Pair(high, low) =>
      var rest := high + (ESCAPE_U + (low + more));
      assert ESCAPE_U + high + ESCAPE_U + low + more == ESCAPE_U + rest;
      EscapeBegins(rest);
      PairComplete(high, low, more);
  }

  lemma EscapeSound(s: Text) returns (u: Unit)
    requires UnicodeEscape(s).Success?
    ensures UnitOk(u) && UnitBytes(u) == UnicodeEscape(s).value && ESCAPE_U + s == UnitText(u) + UnicodeEscape(s).rest
  {
    var first := Hex4(s);
    if 0xD800 <= first.value <= 0xDBFF {
      var low := first.rest[2..];
      u := Pair(s[..4], low[..4]);
      assert first.rest == ESCAPE_U + low;
      assert s == s[..4] + first.rest && low == low[..4] + low[4..];
      assert UnitText(u) + low[4..] == ESCAPE_U + (s[..4] + (ESCAPE_U + (low[..4] + low[4..])));
    } else {
      u := Point(s[..4]);
      assert s == s[..4] + s[4..];
      assert UnitText(u) + s[4..] == ESCAPE_U + (s[..4] + s[4..]);
    }
  }

  /** A character that is read is one of the grammar. */
  lemma CharacterSound(s: Text) returns (u: Unit)
    requires s != [] && s[0] != QUOTE && Character(s).Success?
    ensures UnitOk(u) && Character(s).value == UnitBytes(u) && s == UnitText(u) + Character(s).rest
  {
    if s[0] != BACKSLASH {
      u := Raw(s[0]);
      assert s == [s[0]] + s[1..];
    } else if Unescaped(s[1]).Some? {
      u := Short(s[1]);
      assert s == [s[0], s[1]] + s[2..];
    } else {
      u := EscapeSound(s[2..]);
      assert s == ESCAPE_U + s[2..];
    }
  }

  // ---------------------------------------------------------------- strings

  lemma Regroup(a: Text, b: Text, c: Text)
    ensures a + b + c == a + (b + c)
  {
  }

  lemma UnitFirst(units: seq<Unit>)
    requires units != [] && UnitsOk(units)
    ensures UnitOk(units[0]) && UnitsOk(units[1..])
    ensures UnitsText(units) == UnitText(units[0]) + UnitsText(units[1..])
    ensures UnitsBytes(units) == UnitBytes(units[0]) + UnitsBytes(units[1..])
  {
  }

  lemma BodyUnit(u: Unit, left: Text, out: Text, limit: nat)
    requires UnitOk(u) && |out| + |UnitBytes(u)| <= limit
    ensures Body(UnitText(u) + left, out, limit) == Body(left, out + UnitBytes(u), limit)
  {
    CharacterComplete(u, left);
    BodyStep(UnitText(u) + left, out, limit, UnitBytes(u), left);
  }

  lemma {:induction false} BodyComplete(units: seq<Unit>, tail: Text, out: Text, limit: nat)
    requires UnitsOk(units) && |out| + |UnitsBytes(units)| <= limit && tail != [] && tail[0] == QUOTE
    ensures Body(UnitsText(units) + tail, out, limit) == Success(out + UnitsBytes(units), tail[1..])
    decreases |units|
  {
    if units == [] {
      assert UnitsText(units) + tail == tail && out + UnitsBytes(units) == out;
    } else {
      var u, text, bytes := units[0], UnitsText(units[1..]), UnitsBytes(units[1..]);
      UnitFirst(units);
      Regroup(UnitText(u), text, tail);
      BodyUnit(u, text + tail, out, limit);
      BodyComplete(units[1..], tail, out + UnitBytes(u), limit);
      Regroup(out, UnitBytes(u), bytes);
    }
  }

  lemma BodyUnfolds(s: Text, out: Text, limit: nat)
    requires Body(s, out, limit).Success? && s[0] != QUOTE
    ensures Character(s).Success? && Body(s, out, limit) == Body(Character(s).rest, out + Character(s).value, limit)
  {
  }

  lemma UnitAdded(u: Unit, more: seq<Unit>, tail: Text, out: Text)
    requires UnitOk(u) && UnitsOk(more)
    ensures UnitsOk([u] + more) && UnitsText([u] + more) + tail == UnitText(u) + (UnitsText(more) + tail)
    ensures out + UnitsBytes([u] + more) == out + UnitBytes(u) + UnitsBytes(more)
  {
    var units := [u] + more;
    assert units[0] == u && units[1..] == more;
    UnitFirst(units);
    Regroup(UnitText(u), UnitsText(more), tail);
    Regroup(out, UnitBytes(u), UnitsBytes(more));
  }

  lemma {:induction false} BodySound(s: Text, out: Text, limit: nat) returns (units: seq<Unit>)
    requires Body(s, out, limit).Success?
    ensures UnitsOk(units) && Body(s, out, limit).value == out + UnitsBytes(units)
    ensures s == UnitsText(units) + ([QUOTE] + Body(s, out, limit).rest)
    decreases |s|
  {
    if s[0] == QUOTE {
      units := [];
      assert s == [] + ([QUOTE] + s[1..]) && out + [] == out;
    } else {
      var c := Character(s);
      BodyUnfolds(s, out, limit);
      var u := CharacterSound(s);
      var more := BodySound(c.rest, out + c.value, limit);
      UnitAdded(u, more, [QUOTE] + Body(s, out, limit).rest, out);
      units := [u] + more;
    }
  }

  lemma QuotedComplete(units: seq<Unit>, more: Text, limit: nat)
    requires UnitsOk(units) && |UnitsBytes(units)| <= limit
    ensures Quoted(units) + more != [] && (Quoted(units) + more)[0] == QUOTE
    ensures Body((Quoted(units) + more)[1..], [], limit) == Success(UnitsBytes(units), more)
  {
    var tail := [QUOTE] + more;
    AfterQuote(UnitsText(units), more);
    BodyComplete(units, tail, [], limit);
    assert [] + UnitsBytes(units) == UnitsBytes(units) && tail[1..] == more;
  }

  lemma AfterQuote(text: Text, more: Text)
    ensures ([QUOTE] + text + [QUOTE] + more)[0] == QUOTE
    ensures ([QUOTE] + text + [QUOTE] + more)[1..] == text + ([QUOTE] + more)
  {
  }

  lemma QuotedSound(s: Text, limit: nat) returns (units: seq<Unit>)
    requires s != [] && s[0] == QUOTE && Body(s[1..], [], limit).Success?
    ensures UnitsOk(units) && Body(s[1..], [], limit).value == UnitsBytes(units)
    ensures s == Quoted(units) + Body(s[1..], [], limit).rest
  {
    units := BodySound(s[1..], [], limit);
    assert [] + UnitsBytes(units) == UnitsBytes(units);
    QuotedSplits(s, UnitsText(units), Body(s[1..], [], limit).rest);
  }

  lemma QuotedSplits(s: Text, text: Text, rest: Text)
    requires s != [] && s[0] == QUOTE && s[1..] == text + ([QUOTE] + rest)
    ensures s == [QUOTE] + text + [QUOTE] + rest
  {
  }

  /** No string is longer than its text. */
  lemma {:induction false} UnitsAreShorter(units: seq<Unit>)
    requires UnitsOk(units)
    ensures |UnitsBytes(units)| <= |UnitsText(units)|
  {
    if units != [] { UnitsAreShorter(units[1..]); }
  }

  // ---------------------------------------------------------------- numbers

  lemma DigitsOnly(d: Text)
    requires DigitText(d)
    ensures AllDigits(d)
  {
    forall i | 0 <= i < |d| ensures IsDigit(d[i]) { DigitsAreTen(d[i]); }
  }

  lemma RunIsDigits(s: Text, i: nat)
    requires DigitAt(s, i)
    ensures DigitsEnd(s, i).Some? && DigitText(s[i..DigitsEnd(s, i).value])
  {
    var n := DigitRun(s[i..]);
    var run := s[i..i + n];
    forall j | 0 <= j < |run| ensures run[j] in DIGITS {
      assert s[i..][j] == run[j];
      DigitsAreTen(run[j]);
    }
  }

  /** A run of digits between two texts ends where the second begins. */
  lemma RunEnds(front: Text, d: Text, more: Text)
    requires DigitText(d) && (more != [] ==> !IsDigit(more[0]))
    ensures DigitsEnd(front + d + more, |front|) == Some(|front| + |d|)
  {
    var s := front + d + more;
    DigitsOnly(d);
    assert s[|front|] == d[0] && s[|front|..] == d + more;
    RunOfDigits(d, more);
  }

  /** The rest of a number does not go on with a digit. */
  lemma RestStarts(n: NumberTree, more: Text)
    requires NumberOk(n) && EndsNumber(more)
    ensures var e := ExponentText(n.exponent) + more; e != [] ==> !IsDigit(e[0]) && e[0] != POINT
    ensures var f := FractionText(n.fraction) + (ExponentText(n.exponent) + more); f != [] ==> !IsDigit(f[0])
  {
    var e := ExponentText(n.exponent) + more;
    if n.exponent.Exponent? { assert e[0] == n.exponent.mark; } else { assert e == more; }
    var f := FractionText(n.fraction) + e;
    if n.fraction.Some? { assert f[0] == POINT; } else { assert f == e; }
  }

  lemma WholeComplete(n: NumberTree, rest: Text)
    requires NumberOk(n) && (rest != [] ==> !IsDigit(rest[0]))
    ensures WholeEnd(WholeText(n) + rest) == Some(|WholeText(n)|)
  {
    var sign: Text := if n.minus then [MINUS] else [];
    var s := WholeText(n) + rest;
    assert s == sign + n.whole + rest;
    DigitsOnly(n.whole);
    RunEnds(sign, n.whole, rest);
    assert s[|sign|] == n.whole[0];
    if n.whole[0] == ZERO { assert s[|sign| + 1..] == rest; }
  }

  lemma FractionComplete(front: Text, f: Option<Text>, rest: Text)
    requires (f.Some? ==> DigitText(f.value)) && (rest != [] ==> !IsDigit(rest[0]) && rest[0] != POINT)
    ensures FractionEnd(front + FractionText(f) + rest, |front|) == Some(|front| + |FractionText(f)|)
  {
    if f.Some? {
      Regroup(front, [POINT], f.value);
      PointedComplete(front + FractionText(f) + rest, front, f.value, rest);
    } else {
      assert front + [] + rest == front + rest;
    }
  }

  lemma PointedComplete(s: Text, front: Text, digits: Text, rest: Text)
    requires s == front + [POINT] + digits + rest && DigitText(digits) && (rest != [] ==> !IsDigit(rest[0]))
    ensures FractionEnd(s, |front|) == Some(|front| + 1 + |digits|)
  {
    assert s[|front|] == POINT;
    RunEnds(front + [POINT], digits, rest);
  }

  predicate ExponentOk(e: Exponent) {
    e.Exponent? ==>
      && (e.mark == 0x65 || e.mark == 0x45) && (e.sign == [] || e.sign == [0x2B] || e.sign == [0x2D])
      && DigitText(e.digits)
  }

  /** Where the digits of an exponent start. */
  lemma ExponentStarts(front: Text, mark: Byte, sign: Text, rest: Text)
    requires mark == 0x65 || mark == 0x45
    requires sign == [] || sign == [0x2B] || sign == [0x2D]
    requires rest != [] && IsDigit(rest[0])
    ensures var s := front + [mark] + sign + rest;
            ExponentEnd(s, |front|) == DigitsEnd(s, |front| + 1 + |sign|)
  {
    var s := front + [mark] + sign + rest;
    assert s[|front|] == mark;
    if sign == [] { assert s[|front| + 1] == rest[0]; } else { assert s[|front| + 1] == sign[0]; }
  }

  lemma ExponentComplete(front: Text, e: Exponent, more: Text)
    requires EndsNumber(more) && ExponentOk(e)
    ensures ExponentEnd(front + ExponentText(e) + more, |front|) == Some(|front| + |ExponentText(e)|)
  {
    if e.Exponent? {
      ExponentRegroups(front, [e.mark], e.sign, e.digits, more);
      MarkedComplete(front + ExponentText(e) + more, front, e.mark, e.sign, e.digits, more);
    } else {
      assert front + [] + more == front + more;
    }
  }

  lemma MarkedComplete(s: Text, front: Text, mark: Byte, sign: Text, digits: Text, more: Text)
    requires s == front + [mark] + sign + (digits + more) && EndsNumber(more)
    requires ExponentOk(Exponent(mark, sign, digits))
    ensures ExponentEnd(s, |front|) == Some(|front| + 1 + |sign| + |digits|)
  {
    var head := front + [mark] + sign;
    DigitsOnly(digits);
    assert (digits + more)[0] == digits[0];
    ExponentStarts(front, mark, sign, digits + more);
    Regroup(head, digits, more);
    RunEnds(head, digits, more);
  }

  lemma ExponentRegroups(front: Text, mark: Text, sign: Text, digits: Text, more: Text)
    ensures front + (mark + sign + digits) + more == front + mark + sign + (digits + more)
  {
  }

  lemma TailComplete(w: Text, n: NumberTree, more: Text)
    requires NumberOk(n) && EndsNumber(more)
    ensures var f, e := FractionText(n.fraction), ExponentText(n.exponent);
            TailEnd(w + f + e + more, |w|) == Some(|w| + |f| + |e|)
  {
    var f, e := FractionText(n.fraction), ExponentText(n.exponent);
    RestStarts(n, more);
    Regroup(w + f, e, more);
    FractionComplete(w, n.fraction, e + more);
    ExponentComplete(w + f, n.exponent, more);
  }

  /** A number of the grammar is read to its end. */
  lemma NumberComplete(n: NumberTree, more: Text)
    requires NumberOk(n) && EndsNumber(more)
    ensures NumberEnd(NumberText(n) + more) == Some((|WholeText(n)|, |NumberText(n)|))
    ensures |WholeText(n)| == |NumberText(n)| <==> Integral(n)
  {
    var w, f, e := WholeText(n), FractionText(n.fraction), ExponentText(n.exponent);
    RestStarts(n, more);
    WholeComplete(n, f + (e + more));
    NumberRegroups(w, f, e, more);
    TailComplete(w, n, more);
  }

  lemma NumberRegroups(w: Text, f: Text, e: Text, more: Text)
    ensures w + f + e + more == w + (f + (e + more))
  {
  }

  lemma WholeSound(s: Text) returns (minus: bool, whole: Text)
    requires WholeEnd(s).Some?
    ensures DigitText(whole) && (whole[0] == 0x30 ==> |whole| == 1)
    ensures s[..WholeEnd(s).value] == (if minus then [0x2D] else []) + whole
  {
    minus := s[0] == MINUS;
    var start := if minus then 1 else 0;
    var end := WholeEnd(s).value;
    whole := s[start..end];
    if s[start] == ZERO {
      assert whole == [ZERO];
    } else {
      RunIsDigits(s, start);
      assert whole[0] == s[start];
    }
    assert s[..end] == s[..start] + whole;
  }

  lemma FractionSound(s: Text, i: nat) returns (f: Option<Text>)
    requires i <= |s| && FractionEnd(s, i).Some?
    ensures f.Some? ==> DigitText(f.value)
    ensures s[i..FractionEnd(s, i).value] == FractionText(f) && (f.None? <==> FractionEnd(s, i).value == i)
  {
    if i < |s| && s[i] == POINT {
      RunIsDigits(s, i + 1);
      f := Some(s[i + 1..FractionEnd(s, i).value]);
    } else {
      f := None;
    }
  }

  lemma MarkedSound(s: Text, i: nat, start: nat, end: nat)
    requires i < start <= end <= |s| && start <= i + 2
    ensures s[i..end] == [s[i]] + s[i + 1..start] + s[start..end]
  {
    assert s[i..end] == s[i..start] + s[start..end];
    assert s[i..start] == [s[i]] + s[i + 1..start];
  }

  lemma ExponentSound(s: Text, i: nat) returns (e: Exponent)
    requires i <= |s| && ExponentEnd(s, i).Some?
    ensures ExponentOk(e)
    ensures s[i..ExponentEnd(s, i).value] == ExponentText(e) && (e.NoExponent? <==> ExponentEnd(s, i).value == i)
  {
    if i < |s| && IsExponentMark(s[i]) {
      var signed := i + 1 < |s| && (s[i + 1] == PLUS || s[i + 1] == MINUS);
      var start, end := if signed then i + 2 else i + 1, ExponentEnd(s, i).value;
      var sign := s[i + 1..start];
      assert sign == if signed then [s[i + 1]] else [];
      RunIsDigits(s, start);
      MarkedSound(s, i, start, end);
      e := Exponent(s[i], sign, s[start..end]);
    } else {
      e := NoExponent;
    }
  }

  /** A number that is read is one of the grammar. */
  lemma NumberSound(s: Text) returns (n: NumberTree)
    requires NumberEnd(s).Some?
    ensures NumberOk(n) && NumberText(n) == s[..NumberEnd(s).value.1]
    ensures Integral(n) <==> NumberEnd(s).value.0 == NumberEnd(s).value.1
  {
    var w := WholeEnd(s).value;
    var minus, whole := WholeSound(s);
    var f := FractionSound(s, w);
    var i := FractionEnd(s, w).value;
    var e := ExponentSound(s, i);
    n := NumberTree(minus, whole, f, e);
    ThreeParts(s, w, i, NumberEnd(s).value.1);
  }

  lemma ThreeParts(s: Text, a: nat, b: nat, c: nat)
    requires a <= b <= c <= |s|
    ensures s[..c] == s[..a] + s[a..b] + s[b..c]
  {
  }

  /** The value of a number: an integer that fits 64 bits, with or without a sign, is that integer; anything else is a
      floating-point value, if it has one. */
  lemma NumberMeans(n: NumberTree, rep: Representable)
    requires NumberOk(n)
    ensures AllDigits(n.whole)
    ensures var value := TokenValue(NumberText(n), Integral(n), rep);
            if Integral(n) && !n.minus && Value(n.whole) < 0x1_0000_0000_0000_0000 then
              value == Some(Unsigned(Value(n.whole)))
            else if Integral(n) && n.minus && Value(n.whole) <= 0x8000_0000_0000_0000 then
              value == Some(Signed(0 - Value(n.whole)))
            else value == if rep(NumberText(n)) then Some(Floating(NumberText(n))) else None
  {
    DigitsOnly(n.whole);
    var text := NumberText(n);
    assert text[0] == (if n.minus then MINUS else n.whole[0]);
    if Integral(n) {
      assert text == WholeText(n);
      assert n.minus ==> text[1..] == n.whole;
      assert !n.minus ==> text == n.whole;
    }
  }
}
