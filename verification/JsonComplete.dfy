/** Every text of the grammar is accepted, with its value, exactly when the value is within the parser's limits; so the
    parser accepts the texts of RFC 8259 within its limits and no others. */
module JsonComplete {
  import opened Common
  import opened JsonStrings
  import opened JsonNumbers
  import opened JsonValues
  import opened JsonRoundTrip
  import opened JsonLimits
  import opened JsonExact
  import opened JsonGrammar
  import opened JsonTokens
  import opened JsonSound

  // ---------------------------------------------------------------- trees within the limits

  predicate Fits(t: Tree, depth: nat, limits: Limits)
    decreases t
  {
    && depth <= limits.maxDepth
    && match t
       case StrTree(units) => UnitsOk(units) && |UnitsBytes(units)| <= limits.maxString
       case ArrTree(_, items) => |items| <= limits.maxEntries && ItemsFit(items, depth + 1, limits)
       case ObjTree(_, members) => |members| <= limits.maxEntries && MembersFit(members, depth + 1, limits)
       case _ => true
  }

  predicate ItemsFit(items: seq<Item>, depth: nat, limits: Limits)
    decreases items
  {
    items != [] ==> Fits(items[0].tree, depth, limits) && ItemsFit(items[1..], depth, limits)
  }

  predicate MembersFit(members: seq<Member>, depth: nat, limits: Limits)
    decreases members
  {
    members != [] ==>
      && |KeyOf(members[0])| <= limits.maxString && Fits(members[0].tree, depth, limits)
      && MembersFit(members[1..], depth, limits)
  }

  // ---------------------------------------------------------------- small steps

  /** No text of a value starts with white space or a closing bracket. */
  lemma TextStarts(t: Tree, rep: Representable)
    requires Grammatical(t, rep)
    ensures TextOf(t) != [] && TextOf(t)[0] !in WHITE && TextOf(t)[0] != CLOSE_ARRAY
  {
    if t.NumTree? { NumberBegins(t.number); }
  }

  lemma NumberBegins(n: NumberTree)
    requires NumberOk(n)
    ensures NumberText(n) != [] && (NumberText(n)[0] == MINUS || NumberText(n)[0] in DIGITS)
  {
    var w := WholeText(n);
    assert w[0] == (if n.minus then MINUS else n.whole[0]);
    assert NumberText(n)[0] == w[0];
  }

  predicate IsDelimiter(c: Byte) { c == COMMA || c == CLOSE_ARRAY || c == CLOSE_OBJECT }

  /** White space and a delimiter end a number. */
  lemma DelimiterEnds(w: Text, rest: Text)
    requires White(w) && rest != [] && IsDelimiter(rest[0])
    ensures EndsNumber(w + rest) && Skip(w + rest) == rest
  {
    SkipWhite(w, rest);
    if w == [] { assert w + rest == rest; } else { assert (w + rest)[0] == w[0] && w[0] in WHITE; }
  }

  lemma NumberDispatch(s: Text, depth: nat, limits: Limits, rep: Representable)
    requires s != [] && !IsDispatch(s[0]) && depth <= limits.maxDepth
    ensures ParseValue(s, depth, limits, rep) == WrappedNumber(ReadNumber(s, rep))
  {
  }

  lemma DigitsDoNotDispatch(c: Byte)
    requires c == MINUS || c in DIGITS
    ensures !IsDispatch(c)
  {
  }

  lemma NumberReads(s: Text, whole: nat, end: nat, value: Number, rep: Representable)
    requires NumberEnd(s) == Some((whole, end)) && TokenValue(s[..end], end == whole, rep) == Some(value)
    ensures ReadNumber(s, rep) == Success(value, s[end..])
  {
  }

  lemma NumComplete(n: NumberTree, depth: nat, more: Text, limits: Limits, rep: Representable)
    requires Grammatical(NumTree(n), rep) && depth <= limits.maxDepth && EndsNumber(more)
    ensures ParseValue(NumberText(n) + more, depth, limits, rep) == Success(Meaning(NumTree(n), rep), more)
  {
    var text := NumberText(n);
    var s := text + more;
    var value := TokenValue(text, Integral(n), rep).value;
    NumberBegins(n);
    assert s[0] == text[0];
    NumberComplete(n, more);
    assert s[..|text|] == text && s[|text|..] == more;
    NumberReads(s, |WholeText(n)|, |text|, value, rep);
    DigitsDoNotDispatch(s[0]);
    NumberDispatch(s, depth, limits, rep);
  }

  lemma StrComplete(units: seq<Unit>, depth: nat, more: Text, limits: Limits, rep: Representable)
    requires UnitsOk(units) && |UnitsBytes(units)| <= limits.maxString && depth <= limits.maxDepth
    ensures ParseValue(Quoted(units) + more, depth, limits, rep) == Success(Str(UnitsBytes(units)), more)
  {
    QuotedComplete(units, more, limits.maxString);
  }

  // ---------------------------------------------------------------- arrays

  /** One item is read, given that its value is. */
  lemma ItemComplete(i: Item, rest: Text, depth: nat, limits: Limits, rep: Representable)
    requires White(i.before) && White(i.after) && Grammatical(i.tree, rep) && rest != [] && IsDelimiter(rest[0])
    requires ParseValue(TextOf(i.tree) + (i.after + rest), depth + 1, limits, rep)
          == Success(Meaning(i.tree, rep), i.after + rest)
    ensures ParseItem(ItemText(i) + rest, depth, limits, rep) == Success(Meaning(i.tree, rep), rest)
    ensures Skip(ItemText(i) + rest) == TextOf(i.tree) + (i.after + rest)
  {
    var value := TextOf(i.tree) + (i.after + rest);
    TextStarts(i.tree, rep);
    assert value[0] == TextOf(i.tree)[0];
    BeforeItem(i.before, TextOf(i.tree), i.after, rest);
    Regroup(TextOf(i.tree), i.after, rest);
    ItemRegroups(i.before, TextOf(i.tree), i.after, rest);
    SkipWhite(i.before, value);
    DelimiterEnds(i.after, rest);
  }

  lemma ItemRegroups(a: Text, b: Text, c: Text, d: Text)
    ensures a + b + c + d == a + (b + (c + d))
  {
  }

  /** What follows the first item. */
  function AfterFirst(items: seq<Item>, tail: Text): (r: Text)
    requires items != [] && tail != [] && tail[0] == CLOSE_ARRAY
    ensures r != [] && IsDelimiter(r[0])
  {
    if |items| == 1 then tail else [COMMA] + (ItemsText(items[1..]) + tail)
  }

  lemma ItemsSplitFirst(items: seq<Item>, tail: Text)
    requires items != [] && tail != [] && tail[0] == CLOSE_ARRAY
    ensures ItemsText(items) + tail == ItemText(items[0]) + AfterFirst(items, tail)
  {
    if |items| > 1 { CommaRegroups(ItemText(items[0]), ItemsText(items[1..]), tail); }
  }

  lemma CommaRegroups(a: Text, b: Text, c: Text)
    ensures a + [COMMA] + b + c == a + ([COMMA] + (b + c))
  {
  }

  lemma {:induction false} FirstItemReads(
    items: seq<Item>, depth: nat, tail: Text, limits: Limits, rep: Representable)
    requires items != [] && ItemsOk(items, rep) && ItemsFit(items, depth + 1, limits)
    requires tail != [] && tail[0] == CLOSE_ARRAY
    ensures ParseItem(ItemsText(items) + tail, depth, limits, rep)
         == Success(Meaning(items[0].tree, rep), AfterFirst(items, tail))
    decreases items, 0
  {
    var i, rest := items[0], AfterFirst(items, tail);
    ItemsSplitFirst(items, tail);
    DelimiterEnds(i.after, rest);
    ValueComplete(i.tree, depth + 1, i.after + rest, limits, rep);
    ItemComplete(i, rest, depth, limits, rep);
  }

  lemma AfterItems(items: seq<Item>, tail: Text)
    requires items != [] && tail != [] && tail[0] == CLOSE_ARRAY
    ensures var rest := AfterFirst(items, tail);
            if |items| == 1 then rest == tail else rest[0] == COMMA && rest[1..] == ItemsText(items[1..]) + tail
  {
  }

  lemma {:induction false} ItemsComplete(
    items: seq<Item>, depth: nat, tail: Text, limits: Limits, rep: Representable, done: seq<Json>)
    requires items != [] && ItemsOk(items, rep) && ItemsFit(items, depth + 1, limits)
    requires |done| + |items| <= limits.maxEntries && tail != [] && tail[0] == CLOSE_ARRAY
    ensures ParseItems(ItemsText(items) + tail, depth, limits, rep, done)
         == Success(Arr(done + ItemsMeaning(items, rep)), tail[1..])
    decreases items, 1
  {
    var v, more := Meaning(items[0].tree, rep), ItemsMeaning(items[1..], rep);
    FirstItemReads(items, depth, tail, limits, rep);
    AfterItems(items, tail);
    ItemStep(ItemsText(items) + tail, v, AfterFirst(items, tail), depth, limits, rep, done);
    DoneRegroups(done, v, more);
    if |items| == 1 {
      assert more == [] && done + [v] + [] == done + [v];
    } else {
      ItemsComplete(items[1..], depth, tail, limits, rep, done + [v]);
    }
  }

  lemma SkippedItems(u: Text, depth: nat, limits: Limits, rep: Representable, done: seq<Json>)
    requires u != [] && Skip(u) != []
    ensures ParseItems(Skip(u), depth, limits, rep, done) == ParseItems(u, depth, limits, rep, done)
  {
    assert Skip(Skip(u)) == Skip(u);
  }

  lemma BracketSplits(open: Byte, blank: Text, body: Text, close: Byte, more: Text)
    ensures var s := [open] + blank + body + [close] + more;
            s[0] == open && s[1..] == blank + (body + ([close] + more))
  {
  }

  lemma FirstItemShows(items: seq<Item>, tail: Text, rep: Representable)
    requires items != [] && ItemsOk(items, rep) && tail != [] && tail[0] == CLOSE_ARRAY
    ensures var u := ItemsText(items) + tail; u != [] && Skip(u) != [] && Skip(u)[0] != CLOSE_ARRAY
  {
    var i, rest := items[0], AfterFirst(items, tail);
    ItemsSplitFirst(items, tail);
    TextStarts(i.tree, rep);
    ItemRegroups(i.before, TextOf(i.tree), i.after, rest);
    var value := TextOf(i.tree) + (i.after + rest);
    assert value[0] == TextOf(i.tree)[0];
    SkipWhite(i.before, value);
  }

  lemma OpenedArray(s: Text, u: Text, depth: nat, limits: Limits, rep: Representable, r: Parsed<Json>)
    requires s != [] && s[0] == OPEN_ARRAY && s[1..] == u && depth <= limits.maxDepth
    requires u != [] && Skip(u) != [] && Skip(u)[0] != CLOSE_ARRAY && ParseItems(u, depth, limits, rep, []) == r
    ensures ParseValue(s, depth, limits, rep) == r
  {
    SkippedItems(u, depth, limits, rep, []);
  }

  lemma EmptyArray(s: Text, blank: Text, tail: Text, depth: nat, limits: Limits, rep: Representable)
    requires s != [] && s[0] == OPEN_ARRAY && s[1..] == blank + tail && depth <= limits.maxDepth
    requires White(blank) && tail != [] && tail[0] == CLOSE_ARRAY
    ensures ParseValue(s, depth, limits, rep) == Success(Arr([]), tail[1..])
  {
    SkipWhite(blank, tail);
  }

  lemma {:induction false} ArrayComplete(
    blank: Text, items: seq<Item>, depth: nat, more: Text, limits: Limits, rep: Representable)
    requires Grammatical(ArrTree(blank, items), rep) && Fits(ArrTree(blank, items), depth, limits)
    ensures ParseValue(TextOf(ArrTree(blank, items)) + more, depth, limits, rep)
         == Success(Arr(ItemsMeaning(items, rep)), more)
    decreases items, 2
  {
    var tail, text := [CLOSE_ARRAY] + more, ItemsText(items);
    var s := TextOf(ArrTree(blank, items)) + more;
    BracketSplits(OPEN_ARRAY, blank, text, CLOSE_ARRAY, more);
    assert tail[1..] == more;
    if items == [] {
      assert text + tail == tail;
      EmptyArray(s, blank, tail, depth, limits, rep);
    } else {
      assert blank + (text + tail) == text + tail;
      FirstItemShows(items, tail, rep);
      ItemsComplete(items, depth, tail, limits, rep, []);
      OpenedArray(s, text + tail, depth, limits, rep, ParseItems(text + tail, depth, limits, rep, []));
      assert [] + ItemsMeaning(items, rep) == ItemsMeaning(items, rep);
    }
  }

  // ---------------------------------------------------------------- objects

  lemma KeyComplete(m: Member, value: Text, limits: Limits, done: seq<Entry>)
    requires MemberSpaced(m) && UnitsOk(m.key) && |KeyOf(m)| <= limits.maxString
    requires |done| < limits.maxEntries && !HasKey(done, KeyOf(m)) && value != [] && value[0] !in WHITE
    ensures ParseKey(m.before + (Quoted(m.key) + (m.middle + ([COLON] + (m.between + value)))), limits, done)
         == Success(KeyOf(m), value)
  {
    var colon := [COLON] + (m.between + value);
    var t := Quoted(m.key) + (m.middle + colon);
    QuotedComplete(m.key, m.middle + colon, limits.maxString);
    SkipWhite(m.before, t);
    SkipWhite(m.middle, colon);
    assert colon[1..] == m.between + value;
    SkipWhite(m.between, value);
  }

  lemma MemberTextRegroups(a: Text, b: Text, c: Text, d: Text, e: Text, f: Text, rest: Text)
    ensures a + b + c + [COLON] + d + e + f + rest == a + (b + (c + ([COLON] + (d + (e + (f + rest))))))
  {
  }

  lemma MemberComplete(m: Member, rest: Text, depth: nat, limits: Limits, rep: Representable, done: seq<Entry>)
    requires MemberSpaced(m) && UnitsOk(m.key) && |KeyOf(m)| <= limits.maxString && Grammatical(m.tree, rep)
    requires |done| < limits.maxEntries && !HasKey(done, KeyOf(m)) && rest != [] && IsDelimiter(rest[0])
    requires ParseValue(TextOf(m.tree) + (m.after + rest), depth + 1, limits, rep)
          == Success(Meaning(m.tree, rep), m.after + rest)
    ensures ParseEntry(MemberText(m) + rest, depth, limits, rep, done)
         == Success(Entry(KeyOf(m), Meaning(m.tree, rep)), rest)
  {
    var value := TextOf(m.tree) + (m.after + rest);
    TextStarts(m.tree, rep);
    assert value[0] == TextOf(m.tree)[0];
    MemberTextRegroups(m.before, Quoted(m.key), m.middle, m.between, TextOf(m.tree), m.after, rest);
    KeyComplete(m, value, limits, done);
    DelimiterEnds(m.after, rest);
  }

  function AfterFirstMember(members: seq<Member>, tail: Text): (r: Text)
    requires members != [] && tail != [] && tail[0] == CLOSE_OBJECT
    ensures r != [] && IsDelimiter(r[0])
  {
    if |members| == 1 then tail else [COMMA] + (MembersText(members[1..]) + tail)
  }

  lemma MembersSplitFirst(members: seq<Member>, tail: Text)
    requires members != [] && tail != [] && tail[0] == CLOSE_OBJECT
    ensures MembersText(members) + tail == MemberText(members[0]) + AfterFirstMember(members, tail)
  {
    if |members| > 1 { CommaRegroups(MemberText(members[0]), MembersText(members[1..]), tail); }
  }

  lemma {:induction false} InsertLength(done: seq<Entry>, e: Entry)
    ensures |Insert(done, e)| == |done| + 1
  {
    if done != [] && !Less(done[|done| - 1].key, e.key) { InsertLength(done[..|done| - 1], e); }
  }

  lemma EntriesFirst(members: seq<Member>, rep: Representable)
    requires members != []
    ensures EntriesMeaning(members, rep)
         == [Entry(KeyOf(members[0]), Meaning(members[0].tree, rep))] + EntriesMeaning(members[1..], rep)
  {
  }

  lemma FreshFirst(done: seq<Entry>, e: Entry, more: seq<Entry>)
    requires KeysFresh(done, [e] + more)
    ensures !HasKey(done, e.key) && KeysFresh(Insert(done, e), more)
    ensures InsertAll(done, [e] + more) == InsertAll(Insert(done, e), more)
  {
    assert ([e] + more)[0] == e && ([e] + more)[1..] == more;
  }

  lemma {:induction false} OneMemberReads(
    m: Member, rest: Text, depth: nat, limits: Limits, rep: Representable, done: seq<Entry>)
    requires MemberSpaced(m) && UnitsOk(m.key) && |KeyOf(m)| <= limits.maxString && Grammatical(m.tree, rep)
    requires |done| < limits.maxEntries && !HasKey(done, KeyOf(m)) && rest != [] && IsDelimiter(rest[0])
    requires Fits(m.tree, depth + 1, limits)
    ensures ParseEntry(MemberText(m) + rest, depth, limits, rep, done)
         == Success(Entry(KeyOf(m), Meaning(m.tree, rep)), rest)
    decreases m
  {
    DelimiterEnds(m.after, rest);
    ValueComplete(m.tree, depth + 1, m.after + rest, limits, rep);
    MemberComplete(m, rest, depth, limits, rep, done);
  }

  lemma FirstOfMembers(members: seq<Member>, depth: nat, limits: Limits, rep: Representable)
    requires members != [] && MembersOk(members, rep) && MembersFit(members, depth, limits)
    ensures var m := members[0];
            && MemberSpaced(m) && UnitsOk(m.key) && |KeyOf(m)| <= limits.maxString && Grammatical(m.tree, rep)
            && Fits(m.tree, depth, limits) && MembersOk(members[1..], rep) && MembersFit(members[1..], depth, limits)
  {
  }

  lemma AfterMember(members: seq<Member>, tail: Text)
    requires members != [] && tail != [] && tail[0] == CLOSE_OBJECT
    ensures var rest := AfterFirstMember(members, tail);
            if |members| == 1 then rest == tail
            else rest[0] == COMMA && rest[1..] == MembersText(members[1..]) + tail
  {
  }

  lemma {:induction false} MembersComplete(
    members: seq<Member>, depth: nat, tail: Text, limits: Limits, rep: Representable, done: seq<Entry>)
    requires members != [] && MembersOk(members, rep) && MembersFit(members, depth + 1, limits)
    requires KeysFresh(done, EntriesMeaning(members, rep))
    requires |done| + |members| <= limits.maxEntries && tail != [] && tail[0] == CLOSE_OBJECT
    ensures ParseEntries(MembersText(members) + tail, depth, limits, rep, done)
         == Success(Obj(InsertAll(done, EntriesMeaning(members, rep))), tail[1..])
    decreases members, 1
  {
    var e := Entry(KeyOf(members[0]), Meaning(members[0].tree, rep));
    EntriesFirst(members, rep);
    FreshFirst(done, e, EntriesMeaning(members[1..], rep));
    FirstOfMembers(members, depth + 1, limits, rep);
    OneMemberReads(members[0], AfterFirstMember(members, tail), depth, limits, rep, done);
    MembersSplitFirst(members, tail);
    AfterMember(members, tail);
    EntryStep(MembersText(members) + tail, e, AfterFirstMember(members, tail), depth, limits, rep, done);
    if |members| == 1 {
      assert EntriesMeaning(members[1..], rep) == [];
    } else {
      InsertLength(done, e);
      MembersComplete(members[1..], depth, tail, limits, rep, Insert(done, e));
    }
  }

  lemma SkippedMembers(u: Text, depth: nat, limits: Limits, rep: Representable, done: seq<Entry>)
    requires u != [] && Skip(u) != []
    ensures ParseEntries(Skip(u), depth, limits, rep, done) == ParseEntries(u, depth, limits, rep, done)
  {
    assert Skip(Skip(u)) == Skip(u);
    assert ParseKey(Skip(u), limits, done) == ParseKey(u, limits, done);
    assert ParseEntry(Skip(u), depth, limits, rep, done) == ParseEntry(u, depth, limits, rep, done);
  }

  lemma FirstMemberShows(members: seq<Member>, tail: Text, rep: Representable)
    requires members != [] && MembersOk(members, rep) && tail != [] && tail[0] == CLOSE_OBJECT
    ensures var u := MembersText(members) + tail; u != [] && Skip(u) != [] && Skip(u)[0] != CLOSE_OBJECT
  {
    var m, rest := members[0], AfterFirstMember(members, tail);
    MembersSplitFirst(members, tail);
    MemberTextRegroups(m.before, Quoted(m.key), m.middle, m.between, TextOf(m.tree), m.after, rest);
    var t := Quoted(m.key) + (m.middle + ([COLON] + (m.between + (TextOf(m.tree) + (m.after + rest)))));
    assert t[0] == QUOTE;
    SkipWhite(m.before, t);
  }

  lemma OpenedObject(s: Text, u: Text, depth: nat, limits: Limits, rep: Representable, r: Parsed<Json>)
    requires s != [] && s[0] == OPEN_OBJECT && s[1..] == u && depth <= limits.maxDepth
    requires u != [] && Skip(u) != [] && Skip(u)[0] != CLOSE_OBJECT && ParseEntries(u, depth, limits, rep, []) == r
    ensures ParseValue(s, depth, limits, rep) == r
  {
    SkippedMembers(u, depth, limits, rep, []);
  }

  lemma EmptyObject(s: Text, blank: Text, tail: Text, depth: nat, limits: Limits, rep: Representable)
    requires s != [] && s[0] == OPEN_OBJECT && s[1..] == blank + tail && depth <= limits.maxDepth
    requires White(blank) && tail != [] && tail[0] == CLOSE_OBJECT
    ensures ParseValue(s, depth, limits, rep) == Success(Obj([]), tail[1..])
  {
    SkipWhite(blank, tail);
  }

  lemma {:induction false} ObjectComplete(
    blank: Text, members: seq<Member>, depth: nat, more: Text, limits: Limits, rep: Representable)
    requires Grammatical(ObjTree(blank, members), rep) && Fits(ObjTree(blank, members), depth, limits)
    ensures ParseValue(TextOf(ObjTree(blank, members)) + more, depth, limits, rep)
         == Success(Obj(InsertAll([], EntriesMeaning(members, rep))), more)
    decreases members, 2
  {
    var tail, text := [CLOSE_OBJECT] + more, MembersText(members);
    var s := TextOf(ObjTree(blank, members)) + more;
    BracketSplits(OPEN_OBJECT, blank, text, CLOSE_OBJECT, more);
    assert tail[1..] == more;
    if members == [] {
      assert text + tail == tail;
      EmptyObject(s, blank, tail, depth, limits, rep);
    } else {
      assert blank + (text + tail) == text + tail;
      FirstMemberShows(members, tail, rep);
      DistinctExactly(members, rep);
      MembersComplete(members, depth, tail, limits, rep, []);
      OpenedObject(s, text + tail, depth, limits, rep, ParseEntries(text + tail, depth, limits, rep, []));
    }
  }

  // ---------------------------------------------------------------- values

  lemma {:induction false} ValueComplete(t: Tree, depth: nat, more: Text, limits: Limits, rep: Representable)
    requires Grammatical(t, rep) && Fits(t, depth, limits) && (t.NumTree? ==> EndsNumber(more))
    ensures ParseValue(TextOf(t) + more, depth, limits, rep) == Success(Meaning(t, rep), more)
    decreases t
  {
    match t
    case NullTree => WordReadsBack(NULL_WORD, Null, depth, more, limits, rep);
    case BoolTree(flag) =>
      WordReadsBack(if flag then TRUE_WORD else FALSE_WORD, Bool(flag), depth, more, limits, rep);
    case NumTree(n) => NumComplete(n, depth, more, limits, rep);
    case StrTree(units) => StrComplete(units, depth, more, limits, rep);
    case ArrTree(blank, items) => ArrayComplete(blank, items, depth, more, limits, rep);
    case ObjTree(blank, members) => ObjectComplete(blank, members, depth, more, limits, rep);
  }

  // ---------------------------------------------------------------- limits of trees and of values

  lemma {:induction false} ItemsAreLong(items: seq<Item>, rep: Representable)
    requires ItemsOk(items, rep)
    ensures |items| <= |ItemsText(items)|
    ensures items != [] ==> |TextOf(items[0].tree)| + |ItemsText(items[1..])| <= |ItemsText(items)|
  {
    if items != [] {
      TextStarts(items[0].tree, rep);
      ItemsAreLong(items[1..], rep);
      if |items| == 1 { assert items[1..] == []; }
    }
  }

  lemma FirstMemberIsLong(members: seq<Member>)
    requires members != []
    ensures |MemberText(members[0])| + |MembersText(members[1..])| <= |MembersText(members)|
    ensures |UnitsText(members[0].key)| + |TextOf(members[0].tree)| < |MemberText(members[0])|
  {
    MemberIsLong(members[0]);
    if |members| == 1 { assert members[1..] == []; }
  }

  lemma {:induction false} MembersAreLong(members: seq<Member>)
    ensures |members| <= |MembersText(members)|
  {
    if members != [] {
      FirstMemberIsLong(members);
      MembersAreLong(members[1..]);
    }
  }

  lemma MemberIsLong(m: Member)
    ensures |MemberText(m)| >= |UnitsText(m.key)| + |TextOf(m.tree)| + 3
  {
  }

  lemma BracketsAreLong(t: Tree)
    ensures t.ArrTree? ==> |TextOf(t)| >= 2 + |ItemsText(t.items)|
    ensures t.ObjTree? ==> |TextOf(t)| >= 2 + |MembersText(t.members)|
    ensures t.StrTree? ==> |TextOf(t)| >= |UnitsText(t.units)|
  {
  }

  /** Limits that allow `n` of everything. */
  predicate AllowAll(limits: Limits, n: nat) {
    limits.maxDepth >= n && limits.maxString >= n && limits.maxEntries >= n
  }

  /** A tree fits limits as wide as its text is long. */
  lemma {:induction false} TreeFits(t: Tree, depth: nat, n: nat, limits: Limits, rep: Representable)
    requires Grammatical(t, rep) && depth + |TextOf(t)| <= n && AllowAll(limits, n)
    ensures Fits(t, depth, limits)
    decreases t, 0
  {
    BracketsAreLong(t);
    if t.StrTree? {
      UnitsAreShorter(t.units);
    } else if t.ArrTree? {
      ArrTreeFits(t.blank, t.items, depth, n, limits, rep);
    } else if t.ObjTree? {
      ObjTreeFits(t.blank, t.members, depth, n, limits, rep);
    }
  }

  lemma {:induction false} ArrTreeFits(
    blank: Text, items: seq<Item>, depth: nat, n: nat, limits: Limits, rep: Representable)
    requires ItemsOk(items, rep) && depth + 2 + |ItemsText(items)| <= n && AllowAll(limits, n)
    ensures Fits(ArrTree(blank, items), depth, limits)
    decreases items, 1
  {
    ItemsAreLong(items, rep);
    ItemsTreeFits(items, depth + 1, n, limits, rep);
  }

  lemma {:induction false} ObjTreeFits(
    blank: Text, members: seq<Member>, depth: nat, n: nat, limits: Limits, rep: Representable)
    requires MembersOk(members, rep) && depth + 2 + |MembersText(members)| <= n && AllowAll(limits, n)
    ensures Fits(ObjTree(blank, members), depth, limits)
    decreases members, 1
  {
    MembersAreLong(members);
    MembersTreeFits(members, depth + 1, n, limits, rep);
  }

  lemma {:induction false} ItemsTreeFits(items: seq<Item>, depth: nat, n: nat, limits: Limits, rep: Representable)
    requires ItemsOk(items, rep) && depth + |ItemsText(items)| <= n && AllowAll(limits, n)
    ensures ItemsFit(items, depth, limits)
    decreases items, 0
  {
    if items != [] {
      ItemsAreLong(items, rep);
      TreeFits(items[0].tree, depth, n, limits, rep);
      ItemsTreeFits(items[1..], depth, n, limits, rep);
    }
  }

  lemma {:induction false} MembersTreeFits(
    members: seq<Member>, depth: nat, n: nat, limits: Limits, rep: Representable)
    requires MembersOk(members, rep) && depth + |MembersText(members)| <= n && AllowAll(limits, n)
    ensures MembersFit(members, depth, limits)
    decreases members, 0
  {
    if members != [] {
      FirstMemberIsLong(members);
      UnitsAreShorter(members[0].key);
      TreeFits(members[0].tree, depth, n, limits, rep);
      MembersTreeFits(members[1..], depth, n, limits, rep);
    }
  }

  /** Putting new entries in their places keeps the order and exactly those entries. */
  lemma {:induction false} InsertAllKeeps(done: seq<Entry>, entries: seq<Entry>)
    requires Sorted(done) && KeysFresh(done, entries)
    ensures Sorted(InsertAll(done, entries)) && |InsertAll(done, entries)| == |done| + |entries|
    ensures multiset(InsertAll(done, entries)) == multiset(done) + multiset(entries)
    decreases |entries|
  {
    if entries != [] {
      InsertKeepsSorted(done, entries[0]);
      InsertAllKeeps(Insert(done, entries[0]), entries[1..]);
      assert entries == [entries[0]] + entries[1..];
    }
  }

  lemma InsertedAreLimited(entries: seq<Entry>, depth: nat, limits: Limits)
    requires KeysFresh([], entries) && AllEntries(InsertAll([], entries), depth, limits)
    ensures AllEntries(entries, depth, limits) && |InsertAll([], entries)| == |entries|
  {
    InsertAllKeeps([], entries);
    var all := InsertAll([], entries);
    forall i | 0 <= i < |entries|
      ensures |entries[i].key| <= limits.maxString && Limited(entries[i].value, depth, limits)
    {
      assert entries[i] in multiset(entries);
      assert entries[i] in multiset(all);
      var k :| 0 <= k < |all| && all[k] == entries[i];
    }
  }

  /** A tree whose value is within the limits fits them. */
  lemma {:induction false} LimitedFits(t: Tree, depth: nat, limits: Limits, rep: Representable)
    requires Grammatical(t, rep) && Limited(Meaning(t, rep), depth, limits)
    ensures Fits(t, depth, limits)
    decreases t
  {
    match t
    case ArrTree(_, items) => LimitedItemsFit(items, depth + 1, limits, rep);
    case ObjTree(_, members) =>
      DistinctExactly(members, rep);
      InsertedAreLimited(EntriesMeaning(members, rep), depth + 1, limits);
      LimitedMembersFit(members, depth + 1, limits, rep);
    case _ =>
  }

  lemma {:induction false} LimitedItemsFit(items: seq<Item>, depth: nat, limits: Limits, rep: Representable)
    requires ItemsOk(items, rep) && AllItems(ItemsMeaning(items, rep), depth, limits)
    ensures ItemsFit(items, depth, limits)
    decreases items
  {
    if items != [] {
      var all, rest := ItemsMeaning(items, rep), ItemsMeaning(items[1..], rep);
      assert all == [Meaning(items[0].tree, rep)] + rest && all[0] == Meaning(items[0].tree, rep);
      forall i | 0 <= i < |rest| ensures Limited(rest[i], depth, limits) { assert rest[i] == all[i + 1]; }
      LimitedFits(items[0].tree, depth, limits, rep);
      LimitedItemsFit(items[1..], depth, limits, rep);
    }
  }

  lemma {:induction false} LimitedMembersFit(members: seq<Member>, depth: nat, limits: Limits, rep: Representable)
    requires MembersOk(members, rep) && AllEntries(EntriesMeaning(members, rep), depth, limits)
    ensures MembersFit(members, depth, limits)
    decreases members
  {
    if members != [] {
      var all, rest := EntriesMeaning(members, rep), EntriesMeaning(members[1..], rep);
      EntriesFirst(members, rep);
      assert all[0] == Entry(KeyOf(members[0]), Meaning(members[0].tree, rep));
      forall i | 0 <= i < |rest|
        ensures |rest[i].key| <= limits.maxString && Limited(rest[i].value, depth, limits)
      {
        assert rest[i] == all[i + 1];
      }
      LimitedFits(members[0].tree, depth, limits, rep);
      LimitedMembersFit(members[1..], depth, limits, rep);
    }
  }

  // ---------------------------------------------------------------- the promise

  lemma SkipIsWhite(tail: Text)
    ensures Skip(tail) == [] <==> White(tail)
  {
    var w := SkipSplits(tail);
    if Skip(tail) == [] { assert w + [] == w; }
    if White(tail) {
      assert tail + [] == tail;
      SkipWhite(tail, []);
    }
  }

  /** A text that starts with white space and a whole value goes on as that value decides. */
  lemma ParseOfText(lead: Text, t: Tree, tail: Text, limits: Limits, rep: Representable)
    requires White(lead) && Grammatical(t, rep) && Fits(t, 0, limits) && (t.NumTree? ==> EndsNumber(tail))
    ensures var s := lead + TextOf(t) + tail;
            Parse(s, limits, rep) == if |s| <= limits.maxBytes && White(tail) then Some(Meaning(t, rep)) else None
  {
    var s, value := lead + TextOf(t) + tail, TextOf(t) + tail;
    Regroup(lead, TextOf(t), tail);
    TextStarts(t, rep);
    assert value[0] == TextOf(t)[0];
    SkipWhite(lead, value);
    ValueComplete(t, 0, tail, limits, rep);
    SkipIsWhite(tail);
  }

  /** A text of the grammar, with any white space around its tokens and its keys in any order, is accepted exactly when
      it is no longer than allowed, its value is within the limits and nothing but white space follows; and then as
      that value. (Digits that follow a number at once would belong to it.) */
  lemma TextAcceptedExactly(lead: Text, t: Tree, tail: Text, limits: Limits, rep: Representable)
    requires White(lead) && Grammatical(t, rep) && (t.NumTree? ==> EndsNumber(tail))
    ensures var s := lead + TextOf(t) + tail;
            && (Parse(s, limits, rep).Some? <==>
                  |s| <= limits.maxBytes && White(tail) && Limited(Meaning(t, rep), 0, limits))
            && (Parse(s, limits, rep).Some? ==> Parse(s, limits, rep) == Some(Meaning(t, rep)))
  {
    var s := lead + TextOf(t) + tail;
    if Limited(Meaning(t, rep), 0, limits) {
      LimitedFits(t, 0, limits, rep);
      ParseOfText(lead, t, tail, limits, rep);
    }
    if Parse(s, limits, rep).Some? {
      var n := |s| + limits.maxBytes + limits.maxDepth + limits.maxString + limits.maxEntries;
      AcceptedIsLimited(s, limits, rep);
      ParseWider(s, limits, Limits(n, n, n, n), rep);
      TreeFits(t, 0, n, Limits(n, n, n, n), rep);
      ParseOfText(lead, t, tail, Limits(n, n, n, n), rep);
    }
  }

  /** The parser accepts exactly the texts of the grammar: white space, the text of a tree, white space, for a value
      within the limits; and returns that value. */
  lemma AcceptedExactly(s: Text, v: Json, limits: Limits, rep: Representable)
    ensures Parse(s, limits, rep) == Some(v) <==>
            && |s| <= limits.maxBytes && Limited(v, 0, limits)
            && exists lead, t, tail :: IsTextOf(s, lead, t, tail, rep) && Meaning(t, rep) == v
  {
    if Parse(s, limits, rep) == Some(v) {
      AcceptedIsLimited(s, limits, rep);
      var lead, t, tail := AcceptedIsGrammatical(s, limits, rep);
      assert IsTextOf(s, lead, t, tail, rep);
    }
    if lead, t, tail :| IsTextOf(s, lead, t, tail, rep) && Meaning(t, rep) == v {
      WhiteEnds(tail);
      TextAcceptedExactly(lead, t, tail, limits, rep);
    }
  }

  ghost predicate IsTextOf(s: Text, lead: Text, t: Tree, tail: Text, rep: Representable) {
    White(lead) && White(tail) && Grammatical(t, rep) && s == lead + TextOf(t) + tail
  }

  lemma WhiteEnds(tail: Text)
    requires White(tail)
    ensures EndsNumber(tail)
  {
    if tail != [] { assert tail[0] in WHITE; }
  }

  // ---------------------------------------------------------------- every way of writing one value

  lemma {:induction false} WithinIsLimited(v: Json, depth: nat, limits: Limits)
    requires Within(v, depth, limits)
    ensures Limited(Normal(v), depth, limits)
    decreases v
  {
    match v
    case Arr(items) => WithinItemsLimited(items, depth + 1, limits);
    case Obj(entries) =>
      WithinEntriesLimited(entries, depth + 1, limits);
      NormalSorted(entries);
    case _ =>
  }

  lemma {:induction false} WithinItemsLimited(items: seq<Json>, depth: nat, limits: Limits)
    requires ItemsWithin(items, depth, limits)
    ensures AllItems(NormalItems(items), depth, limits)
    decreases items
  {
    if items != [] {
      WithinIsLimited(items[0], depth, limits);
      WithinItemsLimited(items[1..], depth, limits);
    }
  }

  lemma {:induction false} WithinEntriesLimited(entries: seq<Entry>, depth: nat, limits: Limits)
    requires EntriesWithin(entries, depth, limits)
    ensures AllEntries(NormalEntries(entries), depth, limits)
    decreases entries
  {
    if entries != [] {
      WithinIsLimited(entries[0].value, depth, limits);
      WithinEntriesLimited(entries[1..], depth, limits);
    }
  }

  lemma {:induction false} NormalKey(entries: seq<Entry>, i: nat)
    requires i < |entries|
    ensures NormalEntries(entries)[i].key == entries[i].key
  {
    if i > 0 { NormalKey(entries[1..], i - 1); }
  }

  lemma NormalSorted(entries: seq<Entry>)
    requires Sorted(entries)
    ensures Sorted(NormalEntries(entries))
  {
    forall i | 0 <= i < |entries| ensures NormalEntries(entries)[i].key == entries[i].key { NormalKey(entries, i); }
  }

  /** However a value is written (printable: no floating-point numbers, keys in order, whatever its size), its text
      reads back as the value exactly when the value and the text are within the limits and nothing else follows. */
  lemma EveryTextReadsBack(v: Json, reach: Limits, lead: Text, t: Tree, tail: Text, limits: Limits, rep: Representable)
    requires Within(v, 0, reach) && White(lead) && Grammatical(t, rep) && Meaning(t, rep) == Normal(v)
    requires t.NumTree? ==> EndsNumber(tail)
    ensures var s := lead + TextOf(t) + tail;
            && (Parse(s, limits, rep).Some? <==> |s| <= limits.maxBytes && White(tail) && Within(v, 0, limits))
            && (Parse(s, limits, rep).Some? ==> Parse(s, limits, rep) == Some(Normal(v)))
  {
    TextAcceptedExactly(lead, t, tail, limits, rep);
    if Within(v, 0, limits) { WithinIsLimited(v, 0, limits); }
    if Limited(Normal(v), 0, limits) { LimitedIsWithin(v, 0, limits, 0, reach); }
  }

  /** The same tokens in the same order, whatever the white space around them. */
  predicate SameTokens(t: Tree, u: Tree)
    decreases t
  {
    match t
    case ArrTree(_, items) => u.ArrTree? && SameItems(items, u.items)
    case ObjTree(_, members) => u.ObjTree? && SameMembers(members, u.members)
    case _ => t == u
  }

  predicate SameItems(a: seq<Item>, b: seq<Item>)
    decreases a
  {
    |a| == |b| && (a != [] ==> SameTokens(a[0].tree, b[0].tree) && SameItems(a[1..], b[1..]))
  }

  predicate SameMembers(a: seq<Member>, b: seq<Member>)
    decreases a
  {
    && |a| == |b|
    && (a != [] ==> a[0].key == b[0].key && SameTokens(a[0].tree, b[0].tree) && SameMembers(a[1..], b[1..]))
  }

  lemma {:induction false} SpacingIsMeaningless(t: Tree, u: Tree, rep: Representable)
    requires SameTokens(t, u)
    ensures Meaning(t, rep) == Meaning(u, rep)
    decreases t
  {
    match t
    case ArrTree(_, items) => SpacedItems(items, u.items, rep);
    case ObjTree(_, members) => SpacedMembers(members, u.members, rep);
    case _ =>
  }

  lemma {:induction false} SpacedItems(a: seq<Item>, b: seq<Item>, rep: Representable)
    requires SameItems(a, b)
    ensures ItemsMeaning(a, rep) == ItemsMeaning(b, rep)
    decreases a
  {
    if a != [] {
      SpacingIsMeaningless(a[0].tree, b[0].tree, rep);
      SpacedItems(a[1..], b[1..], rep);
    }
  }

  lemma {:induction false} SpacedMembers(a: seq<Member>, b: seq<Member>, rep: Representable)
    requires SameMembers(a, b)
    ensures EntriesMeaning(a, rep) == EntriesMeaning(b, rep)
    decreases a
  {
    if a != [] {
      SpacingIsMeaningless(a[0].tree, b[0].tree, rep);
      SpacedMembers(a[1..], b[1..], rep);
    }
  }

  /** So the compact form can be laid out in any way: it has a tree, and every tree with the same tokens reads back as
      the value, exactly within the limits. */
  lemma EveryLayoutReadsBack(v: Json, reach: Limits, limits: Limits, rep: Representable) returns (t: Tree)
    requires Within(v, 0, reach)
    ensures Grammatical(t, rep) && exists lead, tail :: IsTextOf(Dump(v), lead, t, tail, rep)
    ensures forall u, lead, tail ::
              SameTokens(t, u) && Grammatical(u, rep) && White(lead) && White(tail) ==>
                (Parse(lead + TextOf(u) + tail, limits, rep) == Some(Normal(v)) <==>
                 |lead + TextOf(u) + tail| <= limits.maxBytes && Within(v, 0, limits))
  {
    var wide := reach.(maxBytes := |Dump(v)|);
    WithinWider(v, 0, reach, wide);
    ParseOfDump(v, wide, rep);
    var before, tree, after := AcceptedIsGrammatical(Dump(v), wide, rep);
    t := tree;
    assert IsTextOf(Dump(v), before, t, after, rep);
    forall u, lead, tail | SameTokens(t, u) && Grammatical(u, rep) && White(lead) && White(tail)
      ensures Parse(lead + TextOf(u) + tail, limits, rep) == Some(Normal(v)) <==>
              |lead + TextOf(u) + tail| <= limits.maxBytes && Within(v, 0, limits)
    {
      SpacingIsMeaningless(t, u, rep);
      WhiteEnds(tail);
      EveryTextReadsBack(v, reach, lead, u, tail, limits, rep);
    }
  }
}
