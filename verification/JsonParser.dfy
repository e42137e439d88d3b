/** The recursive-descent parser that moves an index over its text, against the parser's specification. */
module JsonParser {
  import opened Common
  import opened JsonStrings
  import opened JsonNumbers
  import opened JsonValues
  import Spec = JsonValues

  lemma {:induction false} RunSplits(s: Text, n: nat)
    requires n <= |s| && forall i :: 0 <= i < n ==> IsDigit(s[i])
    ensures DigitRun(s) == n + DigitRun(s[n..])
  {
    if n == 0 { assert s[0..] == s; } else {
      RunSplits(s[1..], n - 1);
      assert s[1..][n - 1..] == s[n..];
    }
  }

  lemma NumberRead(s: Text, whole: nat, end: nat, representable: Representable)
    requires NumberEnd(s) == Some((whole, end))
    ensures TokenValue(s[..end], end == whole, representable).None? ==> ReadNumber(s, representable).Failure?
    ensures TokenValue(s[..end], end == whole, representable).Some? ==>
      ReadNumber(s, representable) == Success(TokenValue(s[..end], end == whole, representable).value, s[end..])
  {
  }

  class Parser {
    const text: Text
    const limits: Limits
    const representable: Representable
    var index: nat

    constructor (text: Text, limits: Limits, representable: Representable)
      ensures this.text == text && this.limits == limits && this.representable == representable && index == 0
    {
      this.text := text;
      this.limits := limits;
      this.representable := representable;
      index := 0;
    }

    ghost predicate Valid()
      reads this
    {
      index <= |text|
    }

    ghost function Unread(): Text
      requires Valid()
      reads this
    {
      text[index..]
    }

    /** A method's result and the new position are what the specification says of the text unread before. */
    ghost predicate Reads<T>(r: Option<T>, p: Parsed<T>)
      requires Valid()
      reads this
    {
      (r.Some? <==> p.Success?) && (r.Some? ==> r.value == p.value && Unread() == p.rest)
    }

    method SkipWhitespace()
      requires Valid()
      modifies this
      ensures Valid() && index >= old(index) && Unread() == Skip(old(Unread()))
    {
      ghost var target := Skip(Unread());
      while index < |text|
        invariant Valid() && index >= old(index) && Skip(Unread()) == target
      {
        if !IsSpace(text[index]) { break; }
        assert Unread()[1..] == text[index + 1..];
        index := index + 1;
      }
    }

    method ParseLiteral(word: Text, v: Json) returns (r: Option<Json>)
      requires Valid() && word != []
      modifies this
      ensures Valid() && Reads(r, Literal(old(Unread()), word, v))
    {
      if |text| - index < |word| || text[index..index + |word|] != word { return None; }
      assert Unread()[..|word|] == text[index..index + |word|] && Unread()[|word|..] == text[index + |word|..];
      index := index + |word|;
      return Some(v);
    }

    // -------------------------------------------------------------- strings

    method ParseHex4() returns (r: Option<nat>)
      requires Valid()
      modifies this
      ensures Valid() && Reads(r, Hex4(old(Unread())))
    {
      if index + 4 > |text| { return None; }
      ghost var digits := text[index..index + 4];
      assert Unread()[..4] == digits && Unread()[4..] == text[index + 4..];
      var value, i := 0, 0;
      while i < 4
        invariant 0 <= i <= 4 && index == old(index)
        invariant HexNumber(digits[..i]) == Some(value)
      {
        var digit := HexValue(text[index + i]);
        assert digits[..i + 1][..i] == digits[..i] && digits[..i + 1][i] == text[index + i];
        if digit.None? {
          BadDigit(digits, i + 1);
          return None;
        }
        value := 16 * value + digit.value;
        i := i + 1;
      }
      assert digits[..4] == digits;
      index := index + 4;
      return Some(value);
    }

    /** The rest of a `\u` escape. */
    method ParseUnicode() returns (r: Option<Text>)
      requires Valid()
      modifies this
      ensures Valid() && Reads(r, UnicodeEscape(old(Unread())))
    {
      var first := ParseHex4();
      if first.None? { return None; }
      CodeUnit(old(Unread()));
      if 0xD800 <= first.value <= 0xDBFF {
        if index + 1 >= |text| || text[index] != BACKSLASH || text[index + 1] != LETTER_U { return None; }
        assert Unread()[2..] == text[index + 2..];
        CodeUnit(text[index + 2..]);
        index := index + 2;
        var second := ParseHex4();
        if second.None? { return None; }
        if second.value < 0xDC00 || second.value > 0xDFFF { return None; }
        return Some(Utf8(0x10000 + (first.value - 0xD800) * 1024 + (second.value - 0xDC00)));
      } else if 0xDC00 <= first.value <= 0xDFFF {
        return None;
      }
      return Some(Utf8(first.value));
    }

    /** One character of a string body. */
    method ParseCharacter() returns (r: Option<Text>)
      requires Valid() && index < |text|
      modifies this
      ensures Valid() && Reads(r, Character(old(Unread())))
    {
      var c := text[index];
      if c < 0x20 { return None; }
      assert Unread()[1..] == text[index + 1..];
      if c != BACKSLASH {
        index := index + 1;
        return Some([c]);
      }
      index := index + 1;
      if index >= |text| { return None; }
      var escape := text[index];
      assert old(Unread())[2..] == text[index + 1..];
      index := index + 1;
      var plain := Unescaped(escape);
      if plain.Some? { return Some([plain.value]); }
      if escape != LETTER_U { return None; }
      r := ParseUnicode();
    }

    /** A string body, from the opening quote on. */
    method ParseString() returns (r: Option<Text>)
      requires Valid() && index < |text|
      modifies this
      ensures Valid() && Reads(r, Body(old(Unread())[1..], [], limits.maxString))
    {
      ghost var target := Body(Unread()[1..], [], limits.maxString);
      assert Unread()[1..] == text[index + 1..];
      index := index + 1;
      var out: Text := [];
      while true
        invariant Valid() && Body(Unread(), out, limits.maxString) == target
        decreases |text| - index
      {
        if index >= |text| { return None; }
        if text[index] == QUOTE {
          assert Unread()[1..] == text[index + 1..];
          index := index + 1;
          return Some(out);
        }
        var c := ParseCharacter();
        if c.None? { return None; }
        out := out + c.value;
        if |out| > limits.maxString { return None; }
      }
    }

    // -------------------------------------------------------------- numbers

    method SkipDigits()
      requires Valid()
      modifies this
      ensures Valid() && index == old(index) + DigitRun(old(Unread()))
    {
      ghost var s := Unread();
      while index < |text| && IsDigit(text[index])
        invariant old(index) <= index <= |text|
        invariant forall i :: 0 <= i < index - old(index) ==> IsDigit(s[i])
      {
        index := index + 1;
      }
      RunSplits(s, index - old(index));
    }

    /** Digits at the current position, at least one; `start` is where the number started. */
    method RequireDigits(ghost start: nat) returns (ok: bool)
      requires Valid() && start <= index
      modifies this
      ensures Valid() && index >= old(index)
      ensures ok == DigitsEnd(text[start..], old(index) - start).Some?
      ensures ok ==> DigitsEnd(text[start..], old(index) - start) == Some(index - start)
    {
      if index >= |text| || !IsDigit(text[index]) { return false; }
      assert text[start..][index - start..] == Unread();
      SkipDigits();
      return true;
    }

    method ParseInteger(ghost start: nat) returns (ok: bool)
      requires Valid() && start <= index
      modifies this
      ensures Valid() && index >= old(index)
      ensures ok == IntegerEnd(text[start..], old(index) - start).Some?
      ensures ok ==> IntegerEnd(text[start..], old(index) - start) == Some(index - start)
    {
      if index >= |text| || !IsDigit(text[index]) { return false; }
      if text[index] == ZERO {
        index := index + 1;
        if index < |text| && IsDigit(text[index]) { return false; }
        return true;
      }
      ok := RequireDigits(start);
    }

    method ParseFraction(ghost start: nat) returns (ok: bool)
      requires Valid() && start <= index
      modifies this
      ensures Valid() && index >= old(index)
      ensures ok == FractionEnd(text[start..], old(index) - start).Some?
      ensures ok ==> FractionEnd(text[start..], old(index) - start) == Some(index - start)
    {
      if index < |text| && text[index] == POINT {
        index := index + 1;
        ok := RequireDigits(start);
      } else {
        ok := true;
      }
    }

    method ParseExponent(ghost start: nat) returns (ok: bool)
      requires Valid() && start <= index
      modifies this
      ensures Valid() && index >= old(index)
      ensures ok == ExponentEnd(text[start..], old(index) - start).Some?
      ensures ok ==> ExponentEnd(text[start..], old(index) - start) == Some(index - start)
    {
      if index < |text| && IsExponentMark(text[index]) {
        index := index + 1;
        if index < |text| && (text[index] == PLUS || text[index] == MINUS) { index := index + 1; }
        ok := RequireDigits(start);
      } else {
        ok := true;
      }
    }

    method ScanWhole() returns (ok: bool)
      requires Valid()
      modifies this
      ensures Valid() && ok == WholeEnd(old(Unread())).Some?
      ensures ok ==> index >= old(index) && WholeEnd(old(Unread())) == Some(index - old(index))
    {
      ghost var start := index;
      if index < |text| && text[index] == MINUS { index := index + 1; }
      ok := ParseInteger(start);
    }

    method ScanTail(ghost start: nat) returns (ok: bool)
      requires Valid() && start <= index
      modifies this
      ensures Valid() && ok == TailEnd(text[start..], old(index) - start).Some?
      ensures ok ==> index >= old(index) && TailEnd(text[start..], old(index) - start) == Some(index - start)
    {
      ok := ParseFraction(start);
      if !ok { return; }
      ok := ParseExponent(start);
    }

    /** Moves past a number; `whole` is where its integer part ends. */
    method ScanNumber() returns (whole: Option<nat>)
      requires Valid()
      modifies this
      ensures Valid() && (whole.Some? <==> NumberEnd(old(Unread())).Some?)
      ensures whole.Some? ==> index >= old(index) && whole.value >= old(index)
      ensures whole.Some? ==> NumberEnd(old(Unread())) == Some((whole.value - old(index), index - old(index)))
    {
      ghost var start := index;
      var ok := ScanWhole();
      if !ok { return None; }
      var end := index;
      ok := ScanTail(start);
      if !ok { return None; }
      return Some(end);
    }

    method ParseNumber() returns (r: Option<Number>)
      requires Valid()
      modifies this
      ensures Valid() && Reads(r, ReadNumber(old(Unread()), representable))
    {
      var start := index;
      ghost var s := Unread();
      var whole := ScanNumber();
      if whole.None? { return None; }
      var token := text[start..index];
      assert token == s[..index - start] && Unread() == s[index - start..];
      r := TokenValue(token, index == whole.value, representable);
      NumberRead(s, whole.value - start, index - start, representable);
    }

    // -------------------------------------------------------------- values

    method ParseValue(depth: nat) returns (r: Option<Json>)
      requires Valid()
      modifies this
      ensures Valid() && Reads(r, Spec.ParseValue(old(Unread()), depth, limits, representable))
      decreases |text| - index, 1
    {
      if depth > limits.maxDepth { return None; }
      if index >= |text| { return None; }
      var c := text[index];
      if c == OPEN_OBJECT {
        r := ParseObject(depth);
      } else if c == OPEN_ARRAY {
        r := ParseArray(depth);
      } else if c == QUOTE {
        var s := ParseString();
        if s.None? { return None; }
        return Some(Str(s.value));
      } else if c == LETTER_T {
        r := ParseLiteral(TRUE_WORD, Bool(true));
      } else if c == LETTER_F {
        r := ParseLiteral(FALSE_WORD, Bool(false));
      } else if c == LETTER_N {
        r := ParseLiteral(NULL_WORD, Null);
      } else {
        var x := ParseNumber();
        if x.None? { return None; }
        return Some(Num(x.value));
      }
    }

    method ParseItem(depth: nat) returns (r: Option<Json>)
      requires Valid()
      modifies this
      ensures Valid() && Reads(r, Spec.ParseItem(old(Unread()), depth, limits, representable))
      decreases |text| - index, 2
    {
      SkipWhitespace();
      r := ParseValue(depth + 1);
      if r.None? { return None; }
      SkipWhitespace();
    }

    method ParseItems(depth: nat) returns (r: Option<Json>)
      requires Valid()
      modifies this
      ensures Valid() && Reads(r, Spec.ParseItems(old(Unread()), depth, limits, representable, []))
      decreases |text| - index, 3
    {
      ghost var target := Spec.ParseItems(Unread(), depth, limits, representable, []);
      var items: seq<Json> := [];
      while true
        invariant Valid() && index >= old(index)
        invariant Spec.ParseItems(Unread(), depth, limits, representable, items) == target
        decreases |text| - index
      {
        if |items| >= limits.maxEntries { return None; }
        var v := ParseItem(depth);
        if v.None? || index >= |text| { return None; }
        assert Unread()[1..] == text[index + 1..];
        index := index + 1;
        items := items + [v.value];
        if text[index - 1] == CLOSE_ARRAY { return Some(Arr(items)); }
        if text[index - 1] != COMMA { return None; }
      }
    }

    method ParseArray(depth: nat) returns (r: Option<Json>)
      requires Valid() && index < |text|
      modifies this
      ensures Valid() && Reads(r, Spec.ParseArray(old(Unread())[1..], depth, limits, representable))
      decreases |text| - index, 0
    {
      assert Unread()[1..] == text[index + 1..];
      index := index + 1;
      SkipWhitespace();
      if index < |text| && text[index] == CLOSE_ARRAY {
        assert Unread()[1..] == text[index + 1..];
        index := index + 1;
        return Some(Arr([]));
      }
      r := ParseItems(depth);
    }

    /** A key, the colon after it, and the white space around both. */
    method ParseKey(done: seq<Entry>) returns (r: Option<Text>)
      requires Valid()
      modifies this
      ensures Valid() && Reads(r, Spec.ParseKey(old(Unread()), limits, done))
    {
      SkipWhitespace();
      if index >= |text| || text[index] != QUOTE { return None; }
      var key := ParseString();
      if key.None? { return None; }
      if |done| >= limits.maxEntries { return None; }
      if HasKey(done, key.value) { return None; }
      SkipWhitespace();
      if index >= |text| || text[index] != COLON { return None; }
      assert Unread()[1..] == text[index + 1..];
      index := index + 1;
      SkipWhitespace();
      return key;
    }

    method ParseEntry(depth: nat, done: seq<Entry>) returns (r: Option<Entry>)
      requires Valid()
      modifies this
      ensures Valid() && Reads(r, Spec.ParseEntry(old(Unread()), depth, limits, representable, done))
      decreases |text| - index, 2
    {
      var key := ParseKey(done);
      if key.None? { return None; }
      var v := ParseValue(depth + 1);
      if v.None? { return None; }
      SkipWhitespace();
      return Some(Entry(key.value, v.value));
    }

    method ParseEntries(depth: nat) returns (r: Option<Json>)
      requires Valid()
      modifies this
      ensures Valid() && Reads(r, Spec.ParseEntries(old(Unread()), depth, limits, representable, []))
      decreases |text| - index, 3
    {
      ghost var target := Spec.ParseEntries(Unread(), depth, limits, representable, []);
      var entries: seq<Entry> := [];
      while true
        invariant Valid() && index >= old(index)
        invariant Spec.ParseEntries(Unread(), depth, limits, representable, entries) == target
        decreases |text| - index
      {
        var e := ParseEntry(depth, entries);
        if e.None? || index >= |text| { return None; }
        assert Unread()[1..] == text[index + 1..];
        index := index + 1;
        entries := Insert(entries, e.value);
        if text[index - 1] == CLOSE_OBJECT { return Some(Obj(entries)); }
        if text[index - 1] != COMMA { return None; }
      }
    }

    method ParseObject(depth: nat) returns (r: Option<Json>)
      requires Valid() && index < |text|
      modifies this
      ensures Valid() && Reads(r, Spec.ParseObject(old(Unread())[1..], depth, limits, representable))
      decreases |text| - index, 0
    {
      assert Unread()[1..] == text[index + 1..];
      index := index + 1;
      SkipWhitespace();
      if index < |text| && text[index] == CLOSE_OBJECT {
        assert Unread()[1..] == text[index + 1..];
        index := index + 1;
        return Some(Obj([]));
      }
      r := ParseEntries(depth);
    }

    /** One value and nothing else but white space. */
    method Run() returns (r: Option<Json>)
      requires index == 0 && |text| <= limits.maxBytes
      modifies this
      ensures r == Parse(text, limits, representable)
    {
      assert text[0..] == text;
      SkipWhitespace();
      if index >= |text| { return None; }
      r := ParseValue(0);
      if r.None? { return None; }
      SkipWhitespace();
      if index != |text| { return None; }
    }
  }

  lemma BadDigit(digits: Text, n: nat)
    requires n <= |digits| && HexNumber(digits[..n]).None?
    ensures HexNumber(digits).None?
    decreases |digits| - n
  {
    if n == |digits| {
      assert digits[..n] == digits;
    } else {
      assert digits[..n + 1][..n] == digits[..n];
      BadDigit(digits, n + 1);
    }
  }

  lemma CodeUnit(s: Text)
    ensures Hex4(s).Success? ==> Hex4(s).value < 0x10000
  {
    if |s| >= 4 {
      HexNumberBound(s[..4]);
      assert Sixteen(4) == 0x10000;
    }
  }

  /** The whole parse, with the bound on the text's length. */
  method ParseText(text: Text, limits: Limits, representable: Representable) returns (r: Option<Json>)
    ensures r == Parse(text, limits, representable)
  {
    if |text| > limits.maxBytes { return None; }
    var parser := new Parser(text, limits, representable);
    r := parser.Run();
  }
}
