/** The grammar of RFC 8259 as syntax trees: a tree holds every token and the white space around it, so its text is
    exactly one way of writing a value. Nothing here refers to the parser. */
module JsonGrammar {
  import opened Common
  import opened JsonStrings
  import opened JsonNumbers
  import opened JsonValues

  // ---------------------------------------------------------------- white space (section 2)

  const WHITE: set<Byte> := {0x20, 0x09, 0x0A, 0x0D}

  predicate White(s: Text) { forall i :: 0 <= i < |s| ==> s[i] in WHITE }

  // ---------------------------------------------------------------- strings (section 7)

  /** One character as it is written: a byte that stands for itself, a backslash and a letter, `\u` and four hex digits,
      or two of those for the halves of a surrogate pair. */
  datatype Unit = Raw(c: Byte) | Short(letter: Byte) | Point(digits: Text) | Pair(high: Text, low: Text)

  const SHORTS: map<Byte, Byte> := map[
    0x22 := 0x22, 0x5C := 0x5C, 0x2F := 0x2F, 0x62 := 0x08, 0x66 := 0x0C, 0x6E := 0x0A, 0x72 := 0x0D, 0x74 := 0x09]

  predicate FourHex(digits: Text) { |digits| == 4 && HexNumber(digits).Some? }

  predicate Between(digits: Text, low: nat, high: nat) { FourHex(digits) && low <= HexNumber(digits).value <= high }

  predicate UnitOk(u: Unit) {
    match u
    case Raw(c) => c >= 0x20 && c != 0x22 && c != 0x5C
    case Short(letter) => letter in SHORTS
    case Point(digits) => FourHex(digits) && !Between(digits, 0xD800, 0xDFFF)
    case Pair(high, low) => Between(high, 0xD800, 0xDBFF) && Between(low, 0xDC00, 0xDFFF)
  }

  const ESCAPE_U: Text := [0x5C, 0x75]

  function UnitText(u: Unit): Text {
    match u
    case Raw(c) => [c]
    case Short(letter) => [0x5C, letter]
    case Point(digits) => ESCAPE_U + digits
    case Pair(high, low) => ESCAPE_U + high + ESCAPE_U + low
  }

  lemma FourHexBound(digits: Text)
    requires FourHex(digits)
    ensures HexNumber(digits).value < 0x10000
  {
    HexNumberBound(digits);
    assert Sixteen(4) == 0x10000;
  }

  /** The bytes a unit stands for: those of the UTF-8 form of an escaped code point. */
  function UnitBytes(u: Unit): Text
    requires UnitOk(u)
  {
    match u
    case Raw(c) => [c]
    case Short(letter) => [SHORTS[letter]]
    case Point(digits) =>
      FourHexBound(digits);
      Utf8(HexNumber(digits).value)
    case Pair(high, low) =>
      Utf8(0x10000 + (HexNumber(high).value - 0xD800) * 1024 + (HexNumber(low).value - 0xDC00))
  }

  predicate UnitsOk(units: seq<Unit>) { forall i :: 0 <= i < |units| ==> UnitOk(units[i]) }

  function UnitsText(units: seq<Unit>): Text {
    if units == [] then [] else UnitText(units[0]) + UnitsText(units[1..])
  }

  function UnitsBytes(units: seq<Unit>): Text
    requires UnitsOk(units)
  {
    if units == [] then [] else UnitBytes(units[0]) + UnitsBytes(units[1..])
  }

  function Quoted(units: seq<Unit>): Text { [0x22] + UnitsText(units) + [0x22] }

  // ---------------------------------------------------------------- numbers (section 6)

  const DIGITS: set<Byte> := {0x30, 0x31, 0x32, 0x33, 0x34, 0x35, 0x36, 0x37, 0x38, 0x39}

  datatype Exponent = NoExponent | Exponent(mark: Byte, sign: Text, digits: Text)

  datatype NumberTree = NumberTree(minus: bool, whole: Text, fraction: Option<Text>, exponent: Exponent)

  predicate DigitText(s: Text) { s != [] && forall i :: 0 <= i < |s| ==> s[i] in DIGITS }

  predicate NumberOk(n: NumberTree) {
    && DigitText(n.whole) && (n.whole[0] == 0x30 ==> |n.whole| == 1)
    && (n.fraction.Some? ==> DigitText(n.fraction.value))
    && (n.exponent.Exponent? ==>
          && (n.exponent.mark == 0x65 || n.exponent.mark == 0x45)
          && (n.exponent.sign == [] || n.exponent.sign == [0x2B] || n.exponent.sign == [0x2D])
          && DigitText(n.exponent.digits))
  }

  function WholeText(n: NumberTree): Text { (if n.minus then [0x2D] else []) + n.whole }

  function FractionText(f: Option<Text>): Text { if f.None? then [] else [0x2E] + f.value }

  function ExponentText(e: Exponent): Text { if e.NoExponent? then [] else [e.mark] + e.sign + e.digits }

  function NumberText(n: NumberTree): Text { WholeText(n) + FractionText(n.fraction) + ExponentText(n.exponent) }

  predicate Integral(n: NumberTree) { n.fraction.None? && n.exponent.NoExponent? }

  // ---------------------------------------------------------------- values (sections 3 to 5)

  datatype Tree =
    | NullTree
    | BoolTree(flag: bool)
    | NumTree(number: NumberTree)
    | StrTree(units: seq<Unit>)
    | ArrTree(blank: Text, items: seq<Item>)
    | ObjTree(blank: Text, members: seq<Member>)

  datatype Item = Item(before: Text, tree: Tree, after: Text)

  datatype Member = Member(before: Text, key: seq<Unit>, middle: Text, between: Text, tree: Tree, after: Text)

  /** The tree is one of the grammar, its numbers have a value, and no object has a key twice. */
  predicate Grammatical(t: Tree, rep: Representable)
    decreases t
  {
    match t
    case NullTree => true
    case BoolTree(_) => true
    case NumTree(n) => NumberOk(n) && TokenValue(NumberText(n), Integral(n), rep).Some?
    case StrTree(units) => UnitsOk(units)
    case ArrTree(blank, items) => White(blank) && (items != [] ==> blank == []) && ItemsOk(items, rep)
    case ObjTree(blank, members) =>
      White(blank) && (members != [] ==> blank == []) && MembersOk(members, rep) && KeysDistinct(members)
  }

  predicate ItemsOk(items: seq<Item>, rep: Representable)
    decreases items
  {
    items != [] ==>
      && White(items[0].before) && White(items[0].after) && Grammatical(items[0].tree, rep)
      && ItemsOk(items[1..], rep)
  }

  predicate MemberSpaced(m: Member) { White(m.before) && White(m.middle) && White(m.between) && White(m.after) }

  predicate MembersOk(members: seq<Member>, rep: Representable)
    decreases members
  {
    members != [] ==>
      && MemberSpaced(members[0]) && UnitsOk(members[0].key) && Grammatical(members[0].tree, rep)
      && MembersOk(members[1..], rep)
  }

  function KeyOf(m: Member): Text { if UnitsOk(m.key) then UnitsBytes(m.key) else [] }

  predicate KeysDistinct(members: seq<Member>) {
    forall i, j :: 0 <= i < j < |members| ==> KeyOf(members[i]) != KeyOf(members[j])
  }

  /** The text of a tree. */
  function TextOf(t: Tree): Text
    decreases t
  {
    match t
    case NullTree => [0x6E, 0x75, 0x6C, 0x6C]
    case BoolTree(flag) => if flag then [0x74, 0x72, 0x75, 0x65] else [0x66, 0x61, 0x6C, 0x73, 0x65]
    case NumTree(n) => NumberText(n)
    case StrTree(units) => Quoted(units)
    case ArrTree(blank, items) => [0x5B] + blank + ItemsText(items) + [0x5D]
    case ObjTree(blank, members) => [0x7B] + blank + MembersText(members) + [0x7D]
  }

  function ItemText(i: Item): Text
    decreases i
  {
    i.before + TextOf(i.tree) + i.after
  }

  function ItemsText(items: seq<Item>): Text
    decreases items
  {
    if items == [] then []
    else if |items| == 1 then ItemText(items[0])
    else ItemText(items[0]) + [0x2C] + ItemsText(items[1..])
  }

  function MemberText(m: Member): Text
    decreases m
  {
    m.before + Quoted(m.key) + m.middle + [0x3A] + m.between + TextOf(m.tree) + m.after
  }

  function MembersText(members: seq<Member>): Text
    decreases members
  {
    if members == [] then []
    else if |members| == 1 then MemberText(members[0])
    else MemberText(members[0]) + [0x2C] + MembersText(members[1..])
  }

  /** The value a tree stands for. An object's entries are put in their places one by one. */
  function Meaning(t: Tree, rep: Representable): Json
    decreases t
  {
    match t
    case NullTree => Null
    case BoolTree(flag) => Bool(flag)
    case NumTree(n) =>
      var value := TokenValue(NumberText(n), Integral(n), rep);
      if value.Some? then Num(value.value) else Null
    case StrTree(units) => if UnitsOk(units) then Str(UnitsBytes(units)) else Null
    case ArrTree(_, items) => Arr(ItemsMeaning(items, rep))
    case ObjTree(_, members) => Obj(InsertAll([], EntriesMeaning(members, rep)))
  }

  function ItemsMeaning(items: seq<Item>, rep: Representable): (r: seq<Json>)
    ensures |r| == |items|
    decreases items
  {
    if items == [] then [] else [Meaning(items[0].tree, rep)] + ItemsMeaning(items[1..], rep)
  }

  function EntriesMeaning(members: seq<Member>, rep: Representable): (r: seq<Entry>)
    ensures |r| == |members|
    decreases members
  {
    if members == [] then []
    else [Entry(KeyOf(members[0]), Meaning(members[0].tree, rep))] + EntriesMeaning(members[1..], rep)
  }

  function InsertAll(done: seq<Entry>, entries: seq<Entry>): seq<Entry>
    decreases |entries|
  {
    if entries == [] then done else InsertAll(Insert(done, entries[0]), entries[1..])
  }

  // ---------------------------------------------------------------- the tables behind the characters

  const HEX_SMALL: Text := [
    0x30, 0x31, 0x32, 0x33, 0x34, 0x35, 0x36, 0x37, 0x38, 0x39, 0x61, 0x62, 0x63, 0x64, 0x65, 0x66]
  const HEX_CAPITAL: Text := [
    0x30, 0x31, 0x32, 0x33, 0x34, 0x35, 0x36, 0x37, 0x38, 0x39, 0x41, 0x42, 0x43, 0x44, 0x45, 0x46]

  lemma HexTables(k: nat)
    requires k < 16
    ensures HEX_SMALL[k] == (if k < 10 then 0x30 + k else 0x57 + k)
    ensures HEX_CAPITAL[k] == (if k < 10 then 0x30 + k else 0x37 + k)
  {
  }

  /** A hex digit is worth its place in the row of digits, in either case, and no other byte is a hex digit. */
  lemma HexDigitsExactly(c: Byte, k: nat)
    requires k < 16
    ensures HexValue(c) == Some(k) <==> c == HEX_SMALL[k] || c == HEX_CAPITAL[k]
    ensures HexValue(c).Some? ==> HexValue(c).value < 16
  {
    HexTables(k);
  }

  lemma DigitsAreTen(c: Byte)
    ensures IsDigit(c) <==> c in DIGITS
  {
  }

  lemma SpacesAreFour(c: Byte)
    ensures IsSpace(c) <==> c in WHITE
  {
  }
}
