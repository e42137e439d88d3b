/** Every value within the parser's limits reads back from its compact form, so the compact form is injective. */
module JsonRoundTrip {
  import opened Common
  import opened JsonStrings
  import opened JsonNumbers
  import opened JsonValues

  // ---------------------------------------------------------------- values within the limits

  predicate InRange(x: Number) {
    match x
    case Signed(i) => MIN_I64 <= i <= MAX_I64
    case Unsigned(n) => n <= MAX_U64
    case Floating(_) => false
  }

  predicate Sorted(entries: seq<Entry>) {
    forall i, j :: 0 <= i < j < |entries| ==> Less(entries[i].key, entries[j].key)
  }

  /** The values the round trip is promised for: no floating-point numbers, keys sorted, and nothing beyond the
      parser's limits. */
  predicate Within(v: Json, depth: nat, limits: Limits)
    decreases v
  {
    && depth <= limits.maxDepth
    && match v
       case Null => true
       case Bool(_) => true
       case Num(x) => InRange(x)
       case Str(text) => |text| <= limits.maxString
       case Arr(items) => |items| <= limits.maxEntries && ItemsWithin(items, depth + 1, limits)
       case Obj(entries) =>
         |entries| <= limits.maxEntries && Sorted(entries) && EntriesWithin(entries, depth + 1, limits)
  }

  predicate ItemsWithin(items: seq<Json>, depth: nat, limits: Limits)
    decreases items
  {
    items == [] || (Within(items[0], depth, limits) && ItemsWithin(items[1..], depth, limits))
  }

  predicate EntriesWithin(entries: seq<Entry>, depth: nat, limits: Limits)
    decreases entries
  {
    || entries == []
    || (|entries[0].key| <= limits.maxString && Within(entries[0].value, depth, limits)
        && EntriesWithin(entries[1..], depth, limits))
  }

  // ---------------------------------------------------------------- small steps

  predicate IsDispatch(c: Byte) {
    c == OPEN_OBJECT || c == OPEN_ARRAY || c == QUOTE || c == LETTER_T || c == LETTER_F || c == LETTER_N
  }

  lemma NumberStarts(x: Number)
    requires InRange(x)
    ensures DumpNumber(x) != [] && !IsSpace(DumpNumber(x)[0]) && DumpNumber(x)[0] != CLOSE_ARRAY
    ensures !IsDispatch(DumpNumber(x)[0])
  {
    match x
    case Signed(i) => DigitsAreDigits(if i < 0 then -i else i);
    case Unsigned(n) => DigitsAreDigits(n);
  }

  /** No printed value starts with white space or a closing bracket. */
  lemma DumpStarts(v: Json, depth: nat, limits: Limits)
    requires Within(v, depth, limits)
    ensures Dump(v) != [] && !IsSpace(Dump(v)[0]) && Dump(v)[0] != CLOSE_ARRAY
  {
    if v.Num? { NumberStarts(v.number); }
  }

  lemma NumberReadsBack(x: Number, depth: nat, more: Text, limits: Limits, representable: Representable)
    requires InRange(x) && depth <= limits.maxDepth && EndsNumber(more)
    ensures ParseValue(DumpNumber(x) + more, depth, limits, representable) == Success(Num(NormalNumber(x)), more)
  {
    NumberStarts(x);
    var s := DumpNumber(x) + more;
    assert s[0] == DumpNumber(x)[0];
    match x
    case Signed(i) => IntegerReadsBack(i, more, representable);
    case Unsigned(n) => IntegerReadsBack(n, more, representable);
  }

  lemma StringReadsBack(text: Text, depth: nat, more: Text, limits: Limits, representable: Representable)
    requires |text| <= limits.maxString && depth <= limits.maxDepth
    ensures ParseValue(Escaped(text) + more, depth, limits, representable) == Success(Str(text), more)
  {
    var s := Escaped(text) + more;
    assert s[0] == QUOTE;
    assert s[1..] == EscapedBody(text) + [QUOTE] + more;
    BodyReadsBack(text, more, [], limits.maxString);
    assert [] + text == text;
  }

  lemma WordReadsBack(word: Text, v: Json, depth: nat, more: Text, limits: Limits, representable: Representable)
    requires depth <= limits.maxDepth
    requires (word == TRUE_WORD && v == Bool(true))
          || (word == FALSE_WORD && v == Bool(false)) || (word == NULL_WORD && v == Null)
    ensures ParseValue(word + more, depth, limits, representable) == Success(v, more)
  {
    var s := word + more;
    assert s[0] == word[0] && s[..|word|] == word && s[|word|..] == more;
  }

  lemma {:induction false} LessIrreflexive(a: Text)
    ensures !Less(a, a)
  {
    if a != [] { LessIrreflexive(a[1..]); }
  }

  /** Entries read before are all below the ones still to come. */
  predicate Below(done: seq<Entry>, entries: seq<Entry>) {
    forall i, j :: 0 <= i < |done| && 0 <= j < |entries| ==> Less(done[i].key, entries[j].key)
  }

  lemma InsertedLast(done: seq<Entry>, entries: seq<Entry>, e: Entry)
    requires entries != [] && Below(done, entries) && Sorted(entries) && e.key == entries[0].key
    ensures !HasKey(done, e.key) && Insert(done, e) == done + [e] && Below(done + [e], entries[1..])
    ensures Sorted(entries[1..])
  {
    LessIrreflexive(e.key);
    assert forall i :: 0 <= i < |done| ==> Less(done[i].key, entries[0].key);
    if done == [] { assert [] + [e] == [e]; }
  }

  lemma KeyReadsBack(key: Text, after: Text, limits: Limits, done: seq<Entry>)
    requires |key| <= limits.maxString && |done| < limits.maxEntries && !HasKey(done, key)
    requires after != [] && !IsSpace(after[0])
    ensures ParseKey(Escaped(key) + [COLON] + after, limits, done) == Success(key, after)
  {
    var s := Escaped(key) + [COLON] + after;
    assert s[0] == QUOTE && Skip(s) == s;
    var next := [COLON] + after;
    assert s[1..] == EscapedBody(key) + [QUOTE] + next;
    BodyReadsBack(key, next, [], limits.maxString);
    assert [] + key == key;
    assert next[0] == COLON && Skip(next) == next && next[1..] == after && Skip(after) == after;
  }

  lemma ItemReads(s: Text, v: Json, rest: Text, depth: nat, limits: Limits, representable: Representable)
    requires s != [] && !IsSpace(s[0])
    requires ParseValue(s, depth + 1, limits, representable) == Success(v, rest) && rest != [] && !IsSpace(rest[0])
    ensures ParseItem(s, depth, limits, representable) == Success(v, rest)
  {
    assert Skip(s) == s && Skip(rest) == rest;
  }

  /** One element read, what follows it decides how the array goes on. */
  lemma ItemStep(s: Text, v: Json, rest: Text, depth: nat, limits: Limits, representable: Representable,
                 done: seq<Json>)
    requires |done| < limits.maxEntries && ParseItem(s, depth, limits, representable) == Success(v, rest) && rest != []
    ensures rest[0] == COMMA ==>
              ParseItems(s, depth, limits, representable, done)
              == ParseItems(rest[1..], depth, limits, representable, done + [v])
    ensures rest[0] == CLOSE_ARRAY ==>
              ParseItems(s, depth, limits, representable, done) == Success(Arr(done + [v]), rest[1..])
  {
  }

  lemma EntryReads(s: Text, t: Text, e: Entry, rest: Text, depth: nat, limits: Limits, representable: Representable,
                   done: seq<Entry>)
    requires ParseKey(s, limits, done) == Success(e.key, t)
    requires ParseValue(t, depth + 1, limits, representable) == Success(e.value, rest) && rest != []
    requires !IsSpace(rest[0])
    ensures ParseEntry(s, depth, limits, representable, done) == Success(e, rest)
  {
    assert Skip(rest) == rest;
  }

  /** One entry read, what follows it decides how the object goes on. */
  lemma EntryStep(s: Text, e: Entry, rest: Text, depth: nat, limits: Limits, representable: Representable,
                  done: seq<Entry>)
    requires ParseEntry(s, depth, limits, representable, done) == Success(e, rest) && rest != []
    ensures rest[0] == COMMA ==>
      ParseEntries(s, depth, limits, representable, done)
      == ParseEntries(rest[1..], depth, limits, representable, Insert(done, e))
    ensures rest[0] == CLOSE_OBJECT ==>
      ParseEntries(s, depth, limits, representable, done) == Success(Obj(Insert(done, e)), rest[1..])
  {
  }

  // ---------------------------------------------------------------- whole values

  lemma {:induction false} ValueReadsBack(v: Json, depth: nat, more: Text, limits: Limits, representable: Representable)
    requires Within(v, depth, limits) && EndsNumber(more)
    ensures ParseValue(Dump(v) + more, depth, limits, representable) == Success(Normal(v), more)
    decreases v
  {
    match v
    case Null => WordReadsBack(NULL_WORD, v, depth, more, limits, representable);
    case Bool(flag) => WordReadsBack(if flag then TRUE_WORD else FALSE_WORD, v, depth, more, limits, representable);
    case Num(x) => NumberReadsBack(x, depth, more, limits, representable);
    case Str(text) => StringReadsBack(text, depth, more, limits, representable);
    case Arr(items) =>
      if items != [] { ItemsReadBack(items, depth, more, limits, representable, []); }
      ArrayReadsBack(items, depth, more, limits, representable);
    case Obj(entries) =>
      if entries != [] { EntriesReadBack(entries, depth, more, limits, representable, []); }
      ObjectReadsBack(entries, depth, more, limits, representable);
  }

  lemma ArrayReadsBack(items: seq<Json>, depth: nat, more: Text, limits: Limits, representable: Representable)
    requires depth <= limits.maxDepth && ItemsWithin(items, depth + 1, limits)
    requires items != [] ==>
      ParseItems(DumpItems(items) + [CLOSE_ARRAY] + more, depth, limits, representable, [])
      == Success(Arr([] + NormalItems(items)), more)
    ensures ParseValue([OPEN_ARRAY] + DumpItems(items) + [CLOSE_ARRAY] + more, depth, limits, representable)
         == Success(Arr(NormalItems(items)), more)
  {
    var s := [OPEN_ARRAY] + DumpItems(items) + [CLOSE_ARRAY] + more;
    var t := DumpItems(items) + [CLOSE_ARRAY] + more;
    assert s[0] == OPEN_ARRAY && s[1..] == t;
    if items == [] {
      assert t[0] == CLOSE_ARRAY && Skip(t) == t && t[1..] == more;
    } else {
      DumpStarts(items[0], depth + 1, limits);
      assert t[0] == Dump(items[0])[0] && Skip(t) == t;
      assert [] + NormalItems(items) == NormalItems(items);
    }
  }

  lemma ObjectReadsBack(entries: seq<Entry>, depth: nat, more: Text, limits: Limits, representable: Representable)
    requires depth <= limits.maxDepth
    requires entries != [] ==>
      ParseEntries(DumpEntries(entries) + [CLOSE_OBJECT] + more, depth, limits, representable, [])
      == Success(Obj([] + NormalEntries(entries)), more)
    ensures ParseValue([OPEN_OBJECT] + DumpEntries(entries) + [CLOSE_OBJECT] + more, depth, limits, representable)
         == Success(Obj(NormalEntries(entries)), more)
  {
    var s := [OPEN_OBJECT] + DumpEntries(entries) + [CLOSE_OBJECT] + more;
    var t := DumpEntries(entries) + [CLOSE_OBJECT] + more;
    assert s[0] == OPEN_OBJECT && s[1..] == t;
    if entries == [] {
      assert t[0] == CLOSE_OBJECT && Skip(t) == t && t[1..] == more;
    } else {
      assert t[0] == QUOTE && Skip(t) == t;
      assert [] + NormalEntries(entries) == NormalEntries(entries);
    }
  }

  /** What follows the first element of an array, and the first entry of an object. */
  function AfterItem(items: seq<Json>, more: Text): (r: Text)
    requires items != []
    ensures r != [] && EndsNumber(r) && !IsSpace(r[0])
  {
    if |items| == 1 then [CLOSE_ARRAY] + more else [COMMA] + (DumpItems(items[1..]) + [CLOSE_ARRAY] + more)
  }

  function AfterEntry(entries: seq<Entry>, more: Text): (r: Text)
    requires entries != []
    ensures r != [] && EndsNumber(r) && !IsSpace(r[0])
  {
    if |entries| == 1 then [CLOSE_OBJECT] + more else [COMMA] + (DumpEntries(entries[1..]) + [CLOSE_OBJECT] + more)
  }

  lemma AfterEntryTail(entries: seq<Entry>, more: Text)
    requires entries != []
    ensures |entries| == 1 ==> AfterEntry(entries, more)[1..] == more
    ensures |entries| > 1 ==> AfterEntry(entries, more)[1..] == DumpEntries(entries[1..]) + [CLOSE_OBJECT] + more
  {
  }

  lemma RegroupItems(d: Text, rest: Text, more: Text)
    ensures d + [COMMA] + rest + [CLOSE_ARRAY] + more == d + ([COMMA] + (rest + [CLOSE_ARRAY] + more))
    ensures d + [CLOSE_ARRAY] + more == d + ([CLOSE_ARRAY] + more)
  {
  }

  lemma ItemsSplit(items: seq<Json>, more: Text)
    requires items != []
    ensures DumpItems(items) + [CLOSE_ARRAY] + more == Dump(items[0]) + AfterItem(items, more)
  {
    RegroupItems(Dump(items[0]), DumpItems(items[1..]), more);
  }

  lemma RegroupLast(k: Text, d: Text, more: Text)
    ensures k + [COLON] + d + [CLOSE_OBJECT] + more == k + [COLON] + (d + ([CLOSE_OBJECT] + more))
  {
  }

  lemma RegroupNext(k: Text, d: Text, rest: Text, more: Text)
    ensures k + [COLON] + d + [COMMA] + rest + [CLOSE_OBJECT] + more
         == k + [COLON] + (d + ([COMMA] + (rest + [CLOSE_OBJECT] + more)))
  {
  }

  lemma EntriesSplit(entries: seq<Entry>, more: Text)
    requires entries != []
    ensures DumpEntries(entries) + [CLOSE_OBJECT] + more
         == Escaped(entries[0].key) + [COLON] + (Dump(entries[0].value) + AfterEntry(entries, more))
  {
    var k, d := Escaped(entries[0].key), Dump(entries[0].value);
    if |entries| == 1 { RegroupLast(k, d, more); } else { RegroupNext(k, d, DumpEntries(entries[1..]), more); }
  }

  lemma NormalItemsSplit(done: seq<Json>, items: seq<Json>)
    requires items != []
    ensures done + [Normal(items[0])] + NormalItems(items[1..]) == done + NormalItems(items)
  {
  }

  lemma NormalEntriesSplit(done: seq<Entry>, entries: seq<Entry>)
    requires entries != []
    ensures done + [Entry(entries[0].key, Normal(entries[0].value))] + NormalEntries(entries[1..])
         == done + NormalEntries(entries)
  {
  }

  lemma {:induction false} ItemsReadBack(items: seq<Json>, depth: nat, more: Text, limits: Limits,
                                         representable: Representable, done: seq<Json>)
    requires items != [] && ItemsWithin(items, depth + 1, limits) && |done| + |items| <= limits.maxEntries
    ensures ParseItems(DumpItems(items) + [CLOSE_ARRAY] + more, depth, limits, representable, done)
         == Success(Arr(done + NormalItems(items)), more)
    decreases items
  {
    var after := AfterItem(items, more);
    ItemsSplit(items, more);
    DumpStarts(items[0], depth + 1, limits);
    ValueReadsBack(items[0], depth + 1, after, limits, representable);
    ItemReads(Dump(items[0]) + after, Normal(items[0]), after, depth, limits, representable);
    ItemStep(Dump(items[0]) + after, Normal(items[0]), after, depth, limits, representable, done);
    NormalItemsSplit(done, items);
    if |items| == 1 {
      assert after[1..] == more && NormalItems(items[1..]) == [];
      assert done + [Normal(items[0])] + [] == done + [Normal(items[0])];
    } else {
      ItemsReadBack(items[1..], depth, more, limits, representable, done + [Normal(items[0])]);
      assert after[1..] == DumpItems(items[1..]) + [CLOSE_ARRAY] + more;
    }
  }

  /** The first entry reads back, given that its value does. */
  lemma FirstEntryReadsBack(entries: seq<Entry>, e: Entry, depth: nat, more: Text, limits: Limits,
                            representable: Representable, done: seq<Entry>)
    requires entries != [] && EntriesWithin(entries, depth + 1, limits) && |done| < limits.maxEntries
    requires e.key == entries[0].key && !HasKey(done, e.key)
    requires ParseValue(Dump(entries[0].value) + AfterEntry(entries, more), depth + 1, limits, representable)
          == Success(e.value, AfterEntry(entries, more))
    ensures ParseEntry(DumpEntries(entries) + [CLOSE_OBJECT] + more, depth, limits, representable, done)
         == Success(e, AfterEntry(entries, more))
  {
    var after := AfterEntry(entries, more);
    var t := Dump(entries[0].value) + after;
    EntriesSplit(entries, more);
    DumpStarts(entries[0].value, depth + 1, limits);
    KeyReadsBack(e.key, t, limits, done);
    EntryReads(Escaped(e.key) + [COLON] + t, t, e, after, depth, limits, representable, done);
  }

  lemma {:induction false} EntriesReadBack(entries: seq<Entry>, depth: nat, more: Text, limits: Limits,
                                           representable: Representable, done: seq<Entry>)
    requires entries != [] && EntriesWithin(entries, depth + 1, limits) && |done| + |entries| <= limits.maxEntries
    requires Sorted(entries) && Below(done, entries)
    ensures ParseEntries(DumpEntries(entries) + [CLOSE_OBJECT] + more, depth, limits, representable, done)
         == Success(Obj(done + NormalEntries(entries)), more)
    decreases entries
  {
    var e := Entry(entries[0].key, Normal(entries[0].value));
    InsertedLast(done, entries, e);
    ValueReadsBack(entries[0].value, depth + 1, AfterEntry(entries, more), limits, representable);
    FirstEntryReadsBack(entries, e, depth, more, limits, representable, done);
    EntryStep(DumpEntries(entries) + [CLOSE_OBJECT] + more, e, AfterEntry(entries, more),
              depth, limits, representable, done);
    NormalEntriesSplit(done, entries);
    AfterEntryTail(entries, more);
    if |entries| == 1 {
      assert NormalEntries(entries[1..]) == [] && done + [e] + [] == done + [e];
    } else {
      EntriesReadBack(entries[1..], depth, more, limits, representable, done + [e]);
    }
  }

  // ---------------------------------------------------------------- equality is equality of normal forms

  /** Integers held in the range of the type that stores them. */
  predicate Stored(x: Number) {
    (x.Signed? ==> MIN_I64 <= x.i <= MAX_I64) && (x.Unsigned? ==> x.n <= MAX_U64)
  }

  lemma NumbersEqual(x: Number, y: Number)
    requires Stored(x) && Stored(y)
    ensures Equal(Num(x), Num(y)) <==> NormalNumber(x) == NormalNumber(y)
  {
  }

  lemma {:induction false} EqualIsSameNormal(a: Json, b: Json, depth: nat, limits: Limits)
    requires Within(a, depth, limits) && Within(b, depth, limits)
    ensures Equal(a, b) <==> Normal(a) == Normal(b)
    decreases a
  {
    match a
    case Num(x) => if b.Num? { NumbersEqual(x, b.number); }
    case Arr(items) => if b.Arr? { EqualItemsIsSameNormal(items, b.items, depth + 1, limits); }
    case Obj(entries) => if b.Obj? { EqualEntriesIsSameNormal(entries, b.entries, depth + 1, limits); }
    case _ =>
  }

  lemma {:induction false} EqualItemsIsSameNormal(a: seq<Json>, b: seq<Json>, depth: nat, limits: Limits)
    requires ItemsWithin(a, depth, limits) && ItemsWithin(b, depth, limits)
    ensures EqualItems(a, b) <==> NormalItems(a) == NormalItems(b)
    decreases a
  {
    if |a| == |b| && a != [] {
      EqualIsSameNormal(a[0], b[0], depth, limits);
      EqualItemsIsSameNormal(a[1..], b[1..], depth, limits);
      ConsEqual(Normal(a[0]), NormalItems(a[1..]), Normal(b[0]), NormalItems(b[1..]));
    }
  }

  lemma {:induction false} EqualEntriesIsSameNormal(a: seq<Entry>, b: seq<Entry>, depth: nat, limits: Limits)
    requires EntriesWithin(a, depth, limits) && EntriesWithin(b, depth, limits)
    ensures EqualEntries(a, b) <==> NormalEntries(a) == NormalEntries(b)
    decreases a
  {
    if |a| == |b| && a != [] {
      EqualIsSameNormal(a[0].value, b[0].value, depth, limits);
      EqualEntriesIsSameNormal(a[1..], b[1..], depth, limits);
      ConsEqual(Entry(a[0].key, Normal(a[0].value)), NormalEntries(a[1..]),
                Entry(b[0].key, Normal(b[0].value)), NormalEntries(b[1..]));
    }
  }

  lemma ConsEqual<T>(x: T, xs: seq<T>, y: T, ys: seq<T>)
    ensures [x] + xs == [y] + ys <==> x == y && xs == ys
  {
    if [x] + xs == [y] + ys {
      assert ([x] + xs)[0] == ([y] + ys)[0];
      assert ([x] + xs)[1..] == xs && ([y] + ys)[1..] == ys;
    }
  }

  // ---------------------------------------------------------------- the promises

  /** Parsing the compact form of a value within the limits returns the value, up to the sign type of its
      non-negative integers. */
  lemma ParseOfDump(v: Json, limits: Limits, representable: Representable)
    requires Within(v, 0, limits) && |Dump(v)| <= limits.maxBytes
    ensures Parse(Dump(v), limits, representable) == Some(Normal(v))
  {
    var s := Dump(v);
    assert s + [] == s;
    DumpStarts(v, 0, limits);
    assert Skip(s) == s;
    ValueReadsBack(v, 0, [], limits, representable);
  }

  /** Two values within some limits have the same compact form exactly when they are equal. */
  lemma DumpIsInjective(a: Json, b: Json, limits: Limits)
    requires Within(a, 0, limits) && Within(b, 0, limits)
    ensures Dump(a) == Dump(b) <==> Equal(a, b)
  {
    EqualIsSameNormal(a, b, 0, limits);
    if Dump(a) == Dump(b) {
      var wide := limits.(maxBytes := |Dump(a)|);
      WithinWider(a, 0, limits, wide);
      WithinWider(b, 0, limits, wide);
      ParseOfDump(a, wide, _ => true);
      ParseOfDump(b, wide, _ => true);
    }
    DumpOfNormal(a);
    DumpOfNormal(b);
  }

  /** Printing does not see how a non-negative integer is stored. */
  lemma {:induction false} DumpOfNormal(v: Json)
    ensures Dump(Normal(v)) == Dump(v)
    decreases v
  {
    match v
    case Arr(items) => DumpOfNormalItems(items);
    case Obj(entries) => DumpOfNormalEntries(entries);
    case _ =>
  }

  lemma {:induction false} DumpOfNormalItems(items: seq<Json>)
    ensures DumpItems(NormalItems(items)) == DumpItems(items)
    decreases items
  {
    if items != [] {
      DumpOfNormal(items[0]);
      DumpOfNormalItems(items[1..]);
      assert NormalItems(items)[1..] == NormalItems(items[1..]);
    }
  }

  lemma {:induction false} DumpOfNormalEntries(entries: seq<Entry>)
    ensures DumpEntries(NormalEntries(entries)) == DumpEntries(entries)
    decreases entries
  {
    if entries != [] {
      DumpOfNormal(entries[0].value);
      DumpOfNormalEntries(entries[1..]);
      assert NormalEntries(entries)[1..] == NormalEntries(entries[1..]);
    }
  }

  /** Limits that allow no less, whatever the length of the whole text. */
  predicate Wider(wide: Limits, limits: Limits) {
    wide.maxDepth >= limits.maxDepth && wide.maxString >= limits.maxString && wide.maxEntries >= limits.maxEntries
  }

  lemma {:induction false} WithinWider(v: Json, depth: nat, limits: Limits, wide: Limits)
    requires Within(v, depth, limits) && Wider(wide, limits)
    ensures Within(v, depth, wide)
    decreases v
  {
    match v
    case Arr(items) => ItemsWithinWider(items, depth + 1, limits, wide);
    case Obj(entries) => EntriesWithinWider(entries, depth + 1, limits, wide);
    case _ =>
  }

  lemma {:induction false} ItemsWithinWider(items: seq<Json>, depth: nat, limits: Limits, wide: Limits)
    requires ItemsWithin(items, depth, limits) && Wider(wide, limits)
    ensures ItemsWithin(items, depth, wide)
    decreases items
  {
    if items != [] {
      WithinWider(items[0], depth, limits, wide);
      ItemsWithinWider(items[1..], depth, limits, wide);
    }
  }

  lemma {:induction false} EntriesWithinWider(entries: seq<Entry>, depth: nat, limits: Limits, wide: Limits)
    requires EntriesWithin(entries, depth, limits) && Wider(wide, limits)
    ensures EntriesWithin(entries, depth, wide)
    decreases entries
  {
    if entries != [] {
      WithinWider(entries[0].value, depth, limits, wide);
      EntriesWithinWider(entries[1..], depth, limits, wide);
    }
  }
}
