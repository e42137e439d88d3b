/** JSON values, their canonical compact form, and the strict parser as functions of the unread text (RFC 8259). */
module JsonValues {
  import opened Common
  import opened JsonStrings
  import opened JsonNumbers

  /** An object's entries are kept in ascending byte order of their keys. */
  datatype Json =
    | Null
    | Bool(flag: bool)
    | Num(number: Number)
    | Str(text: Text)
    | Arr(items: seq<Json>)
    | Obj(entries: seq<Entry>)

  datatype Entry = Entry(key: Text, value: Json)

  datatype Limits = Limits(maxBytes: nat, maxDepth: nat, maxString: nat, maxEntries: nat)

  const DEFAULT_LIMITS: Limits := Limits(4 * 1024 * 1024, 64, 1024 * 1024, 65536)

  const COMMA: Byte := 0x2C
  const COLON: Byte := 0x3A
  const OPEN_ARRAY: Byte := 0x5B
  const CLOSE_ARRAY: Byte := 0x5D
  const OPEN_OBJECT: Byte := 0x7B
  const CLOSE_OBJECT: Byte := 0x7D
  const LETTER_T: Byte := 0x74
  const LETTER_F: Byte := 0x66
  const LETTER_N: Byte := 0x6E
  const TRUE_WORD: Text := [0x74, 0x72, 0x75, 0x65]
  const FALSE_WORD: Text := [0x66, 0x61, 0x6C, 0x73, 0x65]
  const NULL_WORD: Text := [0x6E, 0x75, 0x6C, 0x6C]

  // ---------------------------------------------------------------- equality

  /** Bytewise ascending order. */
  predicate Less(a: Text, b: Text) {
    if b == [] then false
    else if a == [] then true
    else a[0] < b[0] || (a[0] == b[0] && Less(a[1..], b[1..]))
  }

  /** A number as it reads back: a non-negative integer is unsigned. */
  function NormalNumber(x: Number): Number {
    if x.Signed? && x.i >= 0 then Unsigned(x.i) else x
  }

  function Normal(v: Json): Json
    decreases v
  {
    match v
    case Num(x) => Num(NormalNumber(x))
    case Arr(items) => Arr(NormalItems(items))
    case Obj(entries) => Obj(NormalEntries(entries))
    case _ => v
  }

  function NormalItems(items: seq<Json>): (r: seq<Json>)
    ensures |r| == |items|
    decreases items
  {
    if items == [] then [] else [Normal(items[0])] + NormalItems(items[1..])
  }

  function NormalEntries(entries: seq<Entry>): (r: seq<Entry>)
    ensures |r| == |entries|
    decreases entries
  {
    if entries == [] then [] else [Entry(entries[0].key, Normal(entries[0].value))] + NormalEntries(entries[1..])
  }

  /** An integer that fits the signed type, whichever way it is stored. */
  function AsSigned(v: Json): Option<int> {
    if v.Num? && v.number.Signed? then Some(v.number.i)
    else if v.Num? && v.number.Unsigned? && v.number.n <= MAX_I64 then Some(v.number.n)
    else None
  }

  predicate SameKind(a: Json, b: Json) {
    match a
    case Null => b.Null?
    case Bool(_) => b.Bool?
    case Num(x) => b.Num? && (x.Signed? == b.number.Signed? && x.Unsigned? == b.number.Unsigned?)
    case Str(_) => b.Str?
    case Arr(_) => b.Arr?
    case Obj(_) => b.Obj?
  }

  /** Equality of values: integers compare across the signed and unsigned types. */
  predicate Equal(a: Json, b: Json)
    decreases a
  {
    if !SameKind(a, b) then AsSigned(a).Some? && AsSigned(b).Some? && AsSigned(a) == AsSigned(b)
    else
      match a
      case Arr(items) => EqualItems(items, b.items)
      case Obj(entries) => EqualEntries(entries, b.entries)
      case _ => a == b
  }

  predicate EqualItems(a: seq<Json>, b: seq<Json>)
    decreases a
  {
    |a| == |b| && (a != [] ==> Equal(a[0], b[0]) && EqualItems(a[1..], b[1..]))
  }

  predicate EqualEntries(a: seq<Entry>, b: seq<Entry>)
    decreases a
  {
    |a| == |b| && (a != [] ==> a[0].key == b[0].key && Equal(a[0].value, b[0].value) && EqualEntries(a[1..], b[1..]))
  }

  // ---------------------------------------------------------------- printing

  function DumpNumber(x: Number): Text {
    match x
    case Signed(i) => Integer(i)
    case Unsigned(n) => Digits(n)
    case Floating(token) => token
  }

  /** The compact form. How the runtime prints a floating-point value is not modelled: its token stands for it. */
  function Dump(v: Json): Text
    decreases v
  {
    match v
    case Null => NULL_WORD
    case Bool(flag) => if flag then TRUE_WORD else FALSE_WORD
    case Num(x) => DumpNumber(x)
    case Str(text) => Escaped(text)
    case Arr(items) => [OPEN_ARRAY] + DumpItems(items) + [CLOSE_ARRAY]
    case Obj(entries) => [OPEN_OBJECT] + DumpEntries(entries) + [CLOSE_OBJECT]
  }

  function DumpItems(items: seq<Json>): Text
    decreases items
  {
    if items == [] then []
    else if |items| == 1 then Dump(items[0])
    else Dump(items[0]) + [COMMA] + DumpItems(items[1..])
  }

  function DumpEntry(e: Entry): Text
    decreases e
  {
    Escaped(e.key) + [COLON] + Dump(e.value)
  }

  function DumpEntries(entries: seq<Entry>): Text
    decreases entries
  {
    if entries == [] then []
    else if |entries| == 1 then DumpEntry(entries[0])
    else DumpEntry(entries[0]) + [COMMA] + DumpEntries(entries[1..])
  }

  // ---------------------------------------------------------------- parsing

  predicate IsSpace(c: Byte) { c == 0x20 || c == 0x09 || c == 0x0A || c == 0x0D }

  function Skip(s: Text): (r: Text)
    ensures |r| <= |s| && (r != [] ==> !IsSpace(r[0]))
  {
    if s != [] && IsSpace(s[0]) then Skip(s[1..]) else s
  }

  function Literal(s: Text, word: Text, v: Json): (r: Parsed<Json>)
    requires word != []
    ensures r.Success? ==> |r.rest| < |s|
  {
    if |s| >= |word| && s[..|word|] == word then Success(v, s[|word|..]) else Failure
  }

  predicate HasKey(entries: seq<Entry>, key: Text) { exists i :: 0 <= i < |entries| && entries[i].key == key }

  /** A new entry in its place. */
  function Insert(entries: seq<Entry>, e: Entry): seq<Entry> {
    if entries == [] then [e]
    else if Less(entries[|entries| - 1].key, e.key) then entries + [e]
    else Insert(entries[..|entries| - 1], e) + [entries[|entries| - 1]]
  }

  function Wrapped(text: Parsed<Text>): Parsed<Json> {
    if text.Failure? then Failure else Success(Str(text.value), text.rest)
  }

  function WrappedNumber(x: Parsed<Number>): Parsed<Json> {
    if x.Failure? then Failure else Success(Num(x.value), x.rest)
  }

  function ParseValue(s: Text, depth: nat, limits: Limits, representable: Representable): (r: Parsed<Json>)
    ensures r.Success? ==> |r.rest| < |s|
    decreases |s|, 0
  {
    if depth > limits.maxDepth || s == [] then Failure
    else if s[0] == OPEN_OBJECT then ParseObject(s[1..], depth, limits, representable)
    else if s[0] == OPEN_ARRAY then ParseArray(s[1..], depth, limits, representable)
    else if s[0] == QUOTE then Wrapped(Body(s[1..], [], limits.maxString))
    else if s[0] == LETTER_T then Literal(s, TRUE_WORD, Bool(true))
    else if s[0] == LETTER_F then Literal(s, FALSE_WORD, Bool(false))
    else if s[0] == LETTER_N then Literal(s, NULL_WORD, Null)
    else WrappedNumber(ReadNumber(s, representable))
  }

  function ParseArray(s: Text, depth: nat, limits: Limits, representable: Representable): (r: Parsed<Json>)
    ensures r.Success? ==> |r.rest| <= |s|
    decreases |s|, 3
  {
    var t := Skip(s);
    if t != [] && t[0] == CLOSE_ARRAY then Success(Arr([]), t[1..]) else ParseItems(t, depth, limits, representable, [])
  }

  /** One element of an array and the white space around it. */
  function ParseItem(s: Text, depth: nat, limits: Limits, representable: Representable): (r: Parsed<Json>)
    ensures r.Success? ==> |r.rest| < |s|
    decreases |s|, 1
  {
    var v := ParseValue(Skip(s), depth + 1, limits, representable);
    if v.Failure? then Failure else Success(v.value, Skip(v.rest))
  }

  /** The elements of an array after `done` were read. */
  function ParseItems(s: Text, depth: nat, limits: Limits, representable: Representable,
                      done: seq<Json>): (r: Parsed<Json>)
    ensures r.Success? ==> |r.rest| < |s|
    decreases |s|, 2
  {
    if |done| >= limits.maxEntries then Failure
    else
      var v := ParseItem(s, depth, limits, representable);
      if v.Failure? || v.rest == [] then Failure
      else if v.rest[0] == COMMA then ParseItems(v.rest[1..], depth, limits, representable, done + [v.value])
      else if v.rest[0] == CLOSE_ARRAY then Success(Arr(done + [v.value]), v.rest[1..])
      else Failure
  }

  function ParseObject(s: Text, depth: nat, limits: Limits, representable: Representable): (r: Parsed<Json>)
    ensures r.Success? ==> |r.rest| <= |s|
    decreases |s|, 3
  {
    var t := Skip(s);
    if t != [] && t[0] == CLOSE_OBJECT then Success(Obj([]), t[1..])
    else ParseEntries(t, depth, limits, representable, [])
  }

  /** A key and the colon after it, and the white space around both. */
  function ParseKey(s: Text, limits: Limits, done: seq<Entry>): (r: Parsed<Text>)
    ensures r.Success? ==> |r.rest| < |s|
  {
    var t := Skip(s);
    if t == [] || t[0] != QUOTE then Failure
    else
      var key := Body(t[1..], [], limits.maxString);
      if key.Failure? || |done| >= limits.maxEntries || HasKey(done, key.value) then Failure
      else
        var u := Skip(key.rest);
        if u == [] || u[0] != COLON then Failure else Success(key.value, Skip(u[1..]))
  }

  /** One entry of an object and the white space around it. */
  function ParseEntry(s: Text, depth: nat, limits: Limits, representable: Representable,
                      done: seq<Entry>): (r: Parsed<Entry>)
    ensures r.Success? ==> |r.rest| < |s|
    decreases |s|, 1
  {
    var key := ParseKey(s, limits, done);
    if key.Failure? then Failure
    else
      var v := ParseValue(key.rest, depth + 1, limits, representable);
      if v.Failure? then Failure else Success(Entry(key.value, v.value), Skip(v.rest))
  }

  /** The entries of an object after `done` were read. */
  function ParseEntries(s: Text, depth: nat, limits: Limits, representable: Representable,
                        done: seq<Entry>): (r: Parsed<Json>)
    ensures r.Success? ==> |r.rest| < |s|
    decreases |s|, 2
  {
    var e := ParseEntry(s, depth, limits, representable, done);
    if e.Failure? || e.rest == [] then Failure
    else if e.rest[0] == COMMA then ParseEntries(e.rest[1..], depth, limits, representable, Insert(done, e.value))
    else if e.rest[0] == CLOSE_OBJECT then Success(Obj(Insert(done, e.value)), e.rest[1..])
    else Failure
  }

  /** A whole text: one value and nothing else but white space. */
  function Parse(s: Text, limits: Limits, representable: Representable): Option<Json> {
    var t := Skip(s);
    if |s| > limits.maxBytes || t == [] then None
    else
      var v := ParseValue(t, 0, limits, representable);
      if v.Failure? || Skip(v.rest) != [] then None else Some(v.value)
  }
}
