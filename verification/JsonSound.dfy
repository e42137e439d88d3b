/** Whatever the parser accepts is a text of the grammar: an accepted text is the text of a tree, between white space,
    and the value returned is the tree's. */
module JsonSound {
  import opened Common
  import opened JsonStrings
  import opened JsonNumbers
  import opened JsonValues
  import opened JsonGrammar
  import opened JsonTokens

  // ---------------------------------------------------------------- scalars

  lemma WordSound(s: Text, word: Text, v: Json)
    requires word != [] && Literal(s, word, v).Success?
    ensures s == word + Literal(s, word, v).rest && Literal(s, word, v).value == v
  {
  }

  lemma NumSound(s: Text, rep: Representable) returns (t: Tree)
    requires ReadNumber(s, rep).Success?
    ensures t.NumTree? && Grammatical(t, rep) && Meaning(t, rep) == Num(ReadNumber(s, rep).value)
    ensures s == TextOf(t) + ReadNumber(s, rep).rest
  {
    var n := NumberSound(s);
    t := NumTree(n);
    var end := NumberEnd(s).value.1;
    assert s == s[..end] + s[end..];
  }

  // ---------------------------------------------------------------- arrays

  lemma ItemFits(s: Text, w1: Text, t: Text, w2: Text, rest: Text, value: Text)
    requires s == w1 + value && value == t + (w2 + rest)
    ensures s == w1 + t + w2 + rest
  {
  }

  lemma {:induction false} ItemSound(s: Text, depth: nat, limits: Limits, rep: Representable) returns (i: Item)
    requires ParseItem(s, depth, limits, rep).Success?
    ensures White(i.before) && White(i.after) && Grammatical(i.tree, rep)
    ensures Meaning(i.tree, rep) == ParseItem(s, depth, limits, rep).value
    ensures s == ItemText(i) + ParseItem(s, depth, limits, rep).rest
    decreases |s|, 1
  {
    var v := ParseValue(Skip(s), depth + 1, limits, rep);
    var w1 := SkipSplits(s);
    var t := ValueSound(Skip(s), depth + 1, limits, rep);
    var w2 := SkipSplits(v.rest);
    i := Item(w1, t, w2);
    ItemFits(s, w1, TextOf(t), w2, Skip(v.rest), Skip(s));
  }

  lemma ItemAdded(i: Item, more: seq<Item>, left: Text, rest: Text, s: Text, rep: Representable)
    requires White(i.before) && White(i.after) && Grammatical(i.tree, rep) && ItemsOk(more, rep) && more != []
    requires s == ItemText(i) + ([COMMA] + left) && left == ItemsText(more) + rest
    ensures ItemsOk([i] + more, rep) && s == ItemsText([i] + more) + rest
    ensures ItemsMeaning([i] + more, rep) == [Meaning(i.tree, rep)] + ItemsMeaning(more, rep)
  {
    var items := [i] + more;
    assert items[0] == i && items[1..] == more;
    assert ItemText(i) + ([COMMA] + (ItemsText(more) + rest)) == ItemText(i) + [COMMA] + ItemsText(more) + rest;
  }

  lemma ItemAlone(i: Item, rest: Text, s: Text, rep: Representable)
    requires White(i.before) && White(i.after) && Grammatical(i.tree, rep) && s == ItemText(i) + rest
    ensures ItemsOk([i], rep) && s == ItemsText([i]) + rest && ItemsMeaning([i], rep) == [Meaning(i.tree, rep)]
  {
    assert [i][1..] == [];
  }

  lemma ItemsUnfold(s: Text, depth: nat, limits: Limits, rep: Representable, done: seq<Json>)
    requires ParseItems(s, depth, limits, rep, done).Success?
    ensures var v, r := ParseItem(s, depth, limits, rep), ParseItems(s, depth, limits, rep, done);
            && v.Success? && v.rest != [] && v.rest == [v.rest[0]] + v.rest[1..]
            && (v.rest[0] == COMMA ==> r == ParseItems(v.rest[1..], depth, limits, rep, done + [v.value]))
            && (v.rest[0] != COMMA ==> v.rest[0] == CLOSE_ARRAY && r == Success(Arr(done + [v.value]), v.rest[1..]))
  {
  }

  lemma {:induction false} ItemsSound(s: Text, depth: nat, limits: Limits, rep: Representable, done: seq<Json>)
      returns (items: seq<Item>)
    requires ParseItems(s, depth, limits, rep, done).Success?
    ensures items != [] && ItemsOk(items, rep)
    ensures s == ItemsText(items) + ([CLOSE_ARRAY] + ParseItems(s, depth, limits, rep, done).rest)
    ensures ParseItems(s, depth, limits, rep, done).value == Arr(done + ItemsMeaning(items, rep))
    decreases |s|, 2
  {
    ItemsUnfold(s, depth, limits, rep, done);
    var v := ParseItem(s, depth, limits, rep);
    var i := ItemSound(s, depth, limits, rep);
    var rest := [CLOSE_ARRAY] + ParseItems(s, depth, limits, rep, done).rest;
    if v.rest[0] == COMMA {
      var more := ItemsSound(v.rest[1..], depth, limits, rep, done + [v.value]);
      ItemAdded(i, more, v.rest[1..], rest, s, rep);
      items := [i] + more;
      DoneRegroups(done, v.value, ItemsMeaning(more, rep));
    } else {
      ItemAlone(i, rest, s, rep);
      items := [i];
    }
  }

  lemma DoneRegroups(done: seq<Json>, v: Json, more: seq<Json>)
    ensures done + [v] + more == done + ([v] + more)
  {
  }

  /** White space in front of the first item belongs to it. */
  lemma FirstItemTakes(w: Text, items: seq<Item>, rep: Representable) returns (after: seq<Item>)
    requires White(w) && items != [] && ItemsOk(items, rep)
    ensures after != [] && ItemsOk(after, rep) && ItemsText(after) == w + ItemsText(items)
    ensures ItemsMeaning(after, rep) == ItemsMeaning(items, rep)
  {
    var i := items[0];
    var j := Item(w + i.before, i.tree, i.after);
    after := [j] + items[1..];
    assert after[1..] == items[1..];
    WhiteJoins(w, i.before);
    BeforeItem(w, i.before, TextOf(i.tree), i.after);
    if |items| > 1 {
      Regroup(w, ItemText(i) + [COMMA], ItemsText(items[1..]));
      Regroup(w, ItemText(i), [COMMA]);
    }
  }

  lemma BeforeItem(w: Text, a: Text, b: Text, c: Text)
    ensures w + a + b + c == w + (a + b + c)
  {
  }

  lemma ArraySplits(s: Text, w: Text, body: Text, rest: Text, skipped: Text)
    requires s != [] && s[0] == OPEN_ARRAY && s[1..] == w + skipped && skipped == body + ([CLOSE_ARRAY] + rest)
    ensures s == [OPEN_ARRAY] + [] + (w + body) + [CLOSE_ARRAY] + rest
    ensures body == [] ==> s == [OPEN_ARRAY] + w + [] + [CLOSE_ARRAY] + rest
  {
  }

  lemma {:induction false} ArraySound(s: Text, depth: nat, limits: Limits, rep: Representable) returns (t: Tree)
    requires s != [] && s[0] == OPEN_ARRAY && ParseArray(s[1..], depth, limits, rep).Success?
    ensures t.ArrTree? && Grammatical(t, rep) && Meaning(t, rep) == ParseArray(s[1..], depth, limits, rep).value
    ensures s == TextOf(t) + ParseArray(s[1..], depth, limits, rep).rest
    decreases |s| - 1, 3
  {
    var w := SkipSplits(s[1..]);
    var u := Skip(s[1..]);
    var rest := ParseArray(s[1..], depth, limits, rep).rest;
    if u != [] && u[0] == CLOSE_ARRAY {
      t := ArrTree(w, []);
      assert u == [] + ([CLOSE_ARRAY] + u[1..]);
      ArraySplits(s, w, [], rest, u);
    } else {
      var items := ItemsSound(u, depth, limits, rep, []);
      assert [] + ItemsMeaning(items, rep) == ItemsMeaning(items, rep);
      ArraySplits(s, w, ItemsText(items), rest, u);
      var after := FirstItemTakes(w, items, rep);
      t := ArrTree([], after);
    }
  }

  // ---------------------------------------------------------------- objects

  /** The keys are new one after the other, as the parser checks them. */
  predicate KeysFresh(done: seq<Entry>, entries: seq<Entry>)
    decreases |entries|
  {
    entries != [] ==> !HasKey(done, entries[0].key) && KeysFresh(Insert(done, entries[0]), entries[1..])
  }

  lemma {:induction false} InsertedKeys(done: seq<Entry>, e: Entry, key: Text)
    ensures HasKey(Insert(done, e), key) <==> HasKey(done, key) || e.key == key
  {
    if done == [] {
      assert Insert(done, e)[0] == e;
    } else {
      var n := |done| - 1;
      if Less(done[n].key, e.key) {
        assert Insert(done, e) == done + [e];
        HasKeyAppends(done, e, key);
      } else {
        InsertedKeys(done[..n], e, key);
        HasKeyAppends(Insert(done[..n], e), done[n], key);
        HasKeyAppends(done[..n], done[n], key);
        assert done == done[..n] + [done[n]];
      }
    }
  }

  lemma HasKeyAppends(entries: seq<Entry>, e: Entry, key: Text)
    ensures HasKey(entries + [e], key) <==> HasKey(entries, key) || e.key == key
  {
    var all := entries + [e];
    if HasKey(entries, key) {
      var i :| 0 <= i < |entries| && entries[i].key == key;
      assert all[i].key == key;
    }
    if e.key == key { assert all[|entries|].key == key; }
  }

  /** That is: no key is there already and none comes twice. */
  lemma {:induction false} FreshExactly(done: seq<Entry>, entries: seq<Entry>)
    ensures KeysFresh(done, entries) <==>
            && (forall i :: 0 <= i < |entries| ==> !HasKey(done, entries[i].key))
            && (forall i, j :: 0 <= i < j < |entries| ==> entries[i].key != entries[j].key)
    decreases |entries|
  {
    if entries != [] {
      var e, rest := entries[0], entries[1..];
      assert forall i :: 0 <= i < |rest| ==> rest[i] == entries[i + 1];
      FreshExactly(Insert(done, e), rest);
      forall i | 0 <= i < |rest|
        ensures HasKey(Insert(done, e), rest[i].key) <==> HasKey(done, rest[i].key) || e.key == rest[i].key
      {
        InsertedKeys(done, e, rest[i].key);
      }
      if KeysFresh(done, entries) {
        forall i, j | 0 <= i < j < |entries| ensures entries[i].key != entries[j].key {
          assert entries[j] == rest[j - 1];
          if i > 0 { assert entries[i] == rest[i - 1]; }
        }
        forall i | 0 <= i < |entries| ensures !HasKey(done, entries[i].key) {
          if i > 0 { assert entries[i] == rest[i - 1]; }
        }
      }
    }
  }

  lemma {:induction false} MeaningKeys(members: seq<Member>, rep: Representable, i: nat)
    requires i < |members|
    ensures EntriesMeaning(members, rep)[i].key == KeyOf(members[i])
    ensures EntriesMeaning(members, rep)[i].value == Meaning(members[i].tree, rep)
    decreases i
  {
    var first, rest := Entry(KeyOf(members[0]), Meaning(members[0].tree, rep)), EntriesMeaning(members[1..], rep);
    var all := EntriesMeaning(members, rep);
    assert all == [first] + rest;
    if i > 0 {
      MeaningKeys(members[1..], rep, i - 1);
      assert all[i] == rest[i - 1] && members[1..][i - 1] == members[i];
    }
  }

  lemma DistinctExactly(members: seq<Member>, rep: Representable)
    ensures KeysDistinct(members) <==> KeysFresh([], EntriesMeaning(members, rep))
  {
    FreshExactly([], EntriesMeaning(members, rep));
    forall i | 0 <= i < |members| ensures EntriesMeaning(members, rep)[i].key == KeyOf(members[i]) {
      MeaningKeys(members, rep, i);
    }
  }

  lemma KeySound(s: Text, limits: Limits, done: seq<Entry>)
      returns (before: Text, key: seq<Unit>, middle: Text, between: Text)
    requires ParseKey(s, limits, done).Success?
    ensures White(before) && White(middle) && White(between) && UnitsOk(key)
    ensures ParseKey(s, limits, done).value == UnitsBytes(key) && !HasKey(done, UnitsBytes(key))
    ensures s == before + Quoted(key) + middle + [COLON] + between + ParseKey(s, limits, done).rest
  {
    var t := Skip(s);
    before := SkipSplits(s);
    var body := Body(t[1..], [], limits.maxString);
    key := QuotedSound(t, limits.maxString);
    middle := SkipSplits(body.rest);
    var u := Skip(body.rest);
    between := SkipSplits(u[1..]);
    KeySplits(s, before, t, Quoted(key), body.rest, middle, u, between, Skip(u[1..]));
  }

  lemma KeySplits(
    s: Text, before: Text, t: Text, key: Text, afterKey: Text, middle: Text, u: Text, between: Text, rest: Text)
    requires s == before + t && t == key + afterKey && afterKey == middle + u
    requires u != [] && u[0] == COLON && u[1..] == between + rest
    ensures s == before + key + middle + [COLON] + between + rest
  {
    assert u == [COLON] + u[1..];
  }

  lemma MemberFits(s: Text, front: Text, value: Text, t: Text, w: Text, rest: Text)
    requires s == front + value && value == t + (w + rest)
    ensures s == front + t + w + rest
  {
  }

  lemma {:induction false} MemberSound(s: Text, depth: nat, limits: Limits, rep: Representable, done: seq<Entry>)
      returns (m: Member)
    requires ParseEntry(s, depth, limits, rep, done).Success?
    ensures MemberSpaced(m) && UnitsOk(m.key) && Grammatical(m.tree, rep) && !HasKey(done, KeyOf(m))
    ensures ParseEntry(s, depth, limits, rep, done).value == Entry(KeyOf(m), Meaning(m.tree, rep))
    ensures s == MemberText(m) + ParseEntry(s, depth, limits, rep, done).rest
    decreases |s|, 1
  {
    var key := ParseKey(s, limits, done);
    var v := ParseValue(key.rest, depth + 1, limits, rep);
    var before, units, middle, between := KeySound(s, limits, done);
    var t := ValueSound(key.rest, depth + 1, limits, rep);
    var after := SkipSplits(v.rest);
    m := Member(before, units, middle, between, t, after);
    MemberFits(s, before + Quoted(units) + middle + [COLON] + between, key.rest, TextOf(t), after, Skip(v.rest));
  }

  lemma MemberAdded(m: Member, more: seq<Member>, left: Text, rest: Text, s: Text, rep: Representable)
    requires MemberSpaced(m) && UnitsOk(m.key) && Grammatical(m.tree, rep) && MembersOk(more, rep) && more != []
    requires s == MemberText(m) + ([COMMA] + left) && left == MembersText(more) + rest
    ensures MembersOk([m] + more, rep) && s == MembersText([m] + more) + rest
    ensures EntriesMeaning([m] + more, rep) == [Entry(KeyOf(m), Meaning(m.tree, rep))] + EntriesMeaning(more, rep)
  {
    var members := [m] + more;
    assert members[0] == m && members[1..] == more;
    assert MemberText(m) + ([COMMA] + (MembersText(more) + rest)) == MemberText(m) + [COMMA] + MembersText(more) + rest;
  }

  lemma MemberAlone(m: Member, rest: Text, s: Text, rep: Representable)
    requires MemberSpaced(m) && UnitsOk(m.key) && Grammatical(m.tree, rep) && s == MemberText(m) + rest
    ensures MembersOk([m], rep) && s == MembersText([m]) + rest
    ensures EntriesMeaning([m], rep) == [Entry(KeyOf(m), Meaning(m.tree, rep))]
  {
    assert [m][1..] == [];
  }

  lemma FreshAdded(done: seq<Entry>, e: Entry, more: seq<Entry>)
    requires !HasKey(done, e.key) && KeysFresh(Insert(done, e), more)
    ensures KeysFresh(done, [e] + more) && InsertAll(done, [e] + more) == InsertAll(Insert(done, e), more)
  {
    assert ([e] + more)[1..] == more;
  }

  lemma {:induction false} MembersSound(s: Text, depth: nat, limits: Limits, rep: Representable, done: seq<Entry>)
      returns (members: seq<Member>)
    requires ParseEntries(s, depth, limits, rep, done).Success?
    ensures members != [] && MembersOk(members, rep) && KeysFresh(done, EntriesMeaning(members, rep))
    ensures s == MembersText(members) + ([CLOSE_OBJECT] + ParseEntries(s, depth, limits, rep, done).rest)
    ensures ParseEntries(s, depth, limits, rep, done).value == Obj(InsertAll(done, EntriesMeaning(members, rep)))
    decreases |s|, 2
  {
    var e := ParseEntry(s, depth, limits, rep, done);
    var m := MemberSound(s, depth, limits, rep, done);
    var rest := [CLOSE_OBJECT] + ParseEntries(s, depth, limits, rep, done).rest;
    assert e.rest == [e.rest[0]] + e.rest[1..];
    if e.rest[0] == COMMA {
      var more := MembersSound(e.rest[1..], depth, limits, rep, Insert(done, e.value));
      MemberAdded(m, more, e.rest[1..], rest, s, rep);
      FreshAdded(done, e.value, EntriesMeaning(more, rep));
      members := [m] + more;
    } else {
      MemberAlone(m, rest, s, rep);
      FreshAdded(done, e.value, []);
      assert [e.value] + [] == [e.value];
      members := [m];
    }
  }

  lemma FirstMemberTakes(w: Text, members: seq<Member>, rep: Representable) returns (after: seq<Member>)
    requires White(w) && members != [] && MembersOk(members, rep)
    ensures after != [] && MembersOk(after, rep) && MembersText(after) == w + MembersText(members)
    ensures EntriesMeaning(after, rep) == EntriesMeaning(members, rep)
  {
    var m := members[0];
    var n := m.(before := w + m.before);
    after := [n] + members[1..];
    assert after[1..] == members[1..];
    WhiteJoins(w, m.before);
    BeforeMember(w, m);
    if |members| > 1 {
      Regroup(w, MemberText(m) + [COMMA], MembersText(members[1..]));
      Regroup(w, MemberText(m), [COMMA]);
    }
  }

  lemma BeforeMember(w: Text, m: Member)
    ensures MemberText(m.(before := w + m.before)) == w + MemberText(m)
  {
    Prefixed(w, m.before, Quoted(m.key), m.middle, [0x3A] + m.between, TextOf(m.tree) + m.after);
    MemberRegroups(m.before, Quoted(m.key), m.middle, m.between, TextOf(m.tree), m.after);
    MemberRegroups(w + m.before, Quoted(m.key), m.middle, m.between, TextOf(m.tree), m.after);
  }

  lemma MemberRegroups(a: Text, b: Text, c: Text, d: Text, e: Text, f: Text)
    ensures a + b + c + [0x3A] + d + e + f == a + b + c + ([0x3A] + d) + (e + f)
  {
  }

  lemma Prefixed(w: Text, a: Text, b: Text, c: Text, d: Text, e: Text)
    ensures w + a + b + c + d + e == w + (a + b + c + d + e)
  {
  }

  lemma ObjectSplits(s: Text, w: Text, body: Text, rest: Text, skipped: Text)
    requires s != [] && s[0] == OPEN_OBJECT && s[1..] == w + skipped && skipped == body + ([CLOSE_OBJECT] + rest)
    ensures s == [OPEN_OBJECT] + [] + (w + body) + [CLOSE_OBJECT] + rest
    ensures body == [] ==> s == [OPEN_OBJECT] + w + [] + [CLOSE_OBJECT] + rest
  {
  }

  lemma {:induction false} ObjectSound(s: Text, depth: nat, limits: Limits, rep: Representable) returns (t: Tree)
    requires s != [] && s[0] == OPEN_OBJECT && ParseObject(s[1..], depth, limits, rep).Success?
    ensures t.ObjTree? && Grammatical(t, rep) && Meaning(t, rep) == ParseObject(s[1..], depth, limits, rep).value
    ensures s == TextOf(t) + ParseObject(s[1..], depth, limits, rep).rest
    decreases |s| - 1, 3
  {
    var w := SkipSplits(s[1..]);
    var u := Skip(s[1..]);
    var rest := ParseObject(s[1..], depth, limits, rep).rest;
    if u != [] && u[0] == CLOSE_OBJECT {
      t := ObjTree(w, []);
      assert u == [] + ([CLOSE_OBJECT] + u[1..]);
      ObjectSplits(s, w, [], rest, u);
    } else {
      var members := MembersSound(u, depth, limits, rep, []);
      ObjectSplits(s, w, MembersText(members), rest, u);
      var after := FirstMemberTakes(w, members, rep);
      DistinctExactly(after, rep);
      t := ObjTree([], after);
    }
  }

  // ---------------------------------------------------------------- values

  lemma {:induction false} ValueSound(s: Text, depth: nat, limits: Limits, rep: Representable) returns (t: Tree)
    requires ParseValue(s, depth, limits, rep).Success?
    ensures Grammatical(t, rep) && Meaning(t, rep) == ParseValue(s, depth, limits, rep).value
    ensures s == TextOf(t) + ParseValue(s, depth, limits, rep).rest
    decreases |s|, 0
  {
    if s[0] == OPEN_OBJECT {
      t := ObjectSound(s, depth, limits, rep);
    } else if s[0] == OPEN_ARRAY {
      t := ArraySound(s, depth, limits, rep);
    } else if s[0] == QUOTE {
      var units := QuotedSound(s, limits.maxString);
      t := StrTree(units);
    } else if s[0] == LETTER_T {
      t := BoolTree(true);
      WordSound(s, TRUE_WORD, Bool(true));
    } else if s[0] == LETTER_F {
      t := BoolTree(false);
      WordSound(s, FALSE_WORD, Bool(false));
    } else if s[0] == LETTER_N {
      t := NullTree;
      WordSound(s, NULL_WORD, Null);
    } else {
      t := NumSound(s, rep);
    }
  }

  /** An accepted text is white space, the text of a tree whose value is returned, and white space. */
  lemma AcceptedIsGrammatical(s: Text, limits: Limits, rep: Representable) returns (lead: Text, t: Tree, tail: Text)
    requires Parse(s, limits, rep).Some?
    ensures White(lead) && White(tail) && Grammatical(t, rep)
    ensures s == lead + TextOf(t) + tail && Parse(s, limits, rep) == Some(Meaning(t, rep))
  {
    var v := ParseValue(Skip(s), 0, limits, rep);
    lead := SkipSplits(s);
    t := ValueSound(Skip(s), 0, limits, rep);
    tail := SkipSplits(v.rest);
    assert tail + [] == tail;
    Regroup(lead, TextOf(t), tail);
  }
}
