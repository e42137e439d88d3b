/** Exactly which values read back from their compact form: those within the parser's limits, and no others. */
module JsonExact {
  import opened Common
  import opened JsonStrings
  import opened JsonNumbers
  import opened JsonValues
  import opened JsonRoundTrip
  import opened JsonLimits

  // ---------------------------------------------------------------- wider limits accept no less

  lemma {:induction false} BodyWider(s: Text, out: Text, limit: nat, wide: nat)
    requires limit <= wide && Body(s, out, limit).Success?
    ensures Body(s, out, wide) == Body(s, out, limit)
    decreases |s|
  {
    if s[0] != QUOTE {
      var c := Character(s);
      BodyWider(c.rest, out + c.value, limit, wide);
    }
  }

  lemma KeyWider(s: Text, limits: Limits, wide: Limits, done: seq<Entry>)
    requires Wider(wide, limits) && ParseKey(s, limits, done).Success?
    ensures ParseKey(s, wide, done) == ParseKey(s, limits, done)
  {
    BodyWider(Skip(s)[1..], [], limits.maxString, wide.maxString);
  }

  /** What is accepted under some limits is accepted, as the same value, under wider ones. */
  lemma {:induction false} ValueWider(s: Text, depth: nat, limits: Limits, wide: Limits, rep: Representable)
    requires Wider(wide, limits) && ParseValue(s, depth, limits, rep).Success?
    ensures ParseValue(s, depth, wide, rep) == ParseValue(s, depth, limits, rep)
    decreases |s|, 0
  {
    if s[0] == OPEN_OBJECT {
      var t := Skip(s[1..]);
      if !(t != [] && t[0] == CLOSE_OBJECT) { EntriesWider(t, depth, limits, wide, rep, []); }
    } else if s[0] == OPEN_ARRAY {
      var t := Skip(s[1..]);
      if !(t != [] && t[0] == CLOSE_ARRAY) { ItemsWider(t, depth, limits, wide, rep, []); }
    } else if s[0] == QUOTE {
      BodyWider(s[1..], [], limits.maxString, wide.maxString);
    }
  }

  lemma {:induction false} ItemsWider(
    s: Text, depth: nat, limits: Limits, wide: Limits, rep: Representable, done: seq<Json>)
    requires Wider(wide, limits) && ParseItems(s, depth, limits, rep, done).Success?
    ensures ParseItems(s, depth, wide, rep, done) == ParseItems(s, depth, limits, rep, done)
    decreases |s|, 1
  {
    var v := ParseItem(s, depth, limits, rep);
    ValueWider(Skip(s), depth + 1, limits, wide, rep);
    assert ParseItem(s, depth, wide, rep) == v;
    if v.rest[0] == COMMA { ItemsWider(v.rest[1..], depth, limits, wide, rep, done + [v.value]); }
  }

  lemma {:induction false} EntriesWider(
    s: Text, depth: nat, limits: Limits, wide: Limits, rep: Representable, done: seq<Entry>)
    requires Wider(wide, limits) && ParseEntries(s, depth, limits, rep, done).Success?
    ensures ParseEntries(s, depth, wide, rep, done) == ParseEntries(s, depth, limits, rep, done)
    decreases |s|, 1
  {
    var e := ParseEntry(s, depth, limits, rep, done);
    KeyWider(s, limits, wide, done);
    ValueWider(ParseKey(s, limits, done).rest, depth + 1, limits, wide, rep);
    assert ParseEntry(s, depth, wide, rep, done) == e;
    if e.rest[0] == COMMA { EntriesWider(e.rest[1..], depth, limits, wide, rep, Insert(done, e.value)); }
  }

  // ---------------------------------------------------------------- limits of the normal form

  /** A printable value whose normal form keeps the limits keeps them itself. */
  lemma {:induction false} LimitedIsWithin(v: Json, depth: nat, limits: Limits, at: nat, reach: Limits)
    requires Within(v, at, reach) && Limited(Normal(v), depth, limits)
    ensures Within(v, depth, limits)
    decreases v
  {
    match v
    case Arr(items) =>
      assert AllItems(NormalItems(items), depth + 1, limits);
      LimitedItems(items, depth + 1, limits, at + 1, reach);
    case Obj(entries) =>
      assert AllEntries(NormalEntries(entries), depth + 1, limits);
      LimitedEntries(entries, depth + 1, limits, at + 1, reach);
    case _ =>
  }

  lemma {:induction false} LimitedItems(items: seq<Json>, depth: nat, limits: Limits, at: nat, reach: Limits)
    requires ItemsWithin(items, at, reach) && AllItems(NormalItems(items), depth, limits)
    ensures ItemsWithin(items, depth, limits)
    decreases items
  {
    if items != [] {
      var rest := NormalItems(items[1..]);
      assert NormalItems(items) == [Normal(items[0])] + rest;
      assert NormalItems(items)[0] == Normal(items[0]);
      forall i | 0 <= i < |rest| ensures Limited(rest[i], depth, limits) {
        assert rest[i] == NormalItems(items)[i + 1];
      }
      LimitedIsWithin(items[0], depth, limits, at, reach);
      LimitedItems(items[1..], depth, limits, at, reach);
    }
  }

  lemma {:induction false} LimitedEntries(entries: seq<Entry>, depth: nat, limits: Limits, at: nat, reach: Limits)
    requires EntriesWithin(entries, at, reach) && AllEntries(NormalEntries(entries), depth, limits)
    ensures EntriesWithin(entries, depth, limits)
    decreases entries
  {
    if entries != [] {
      var all, rest := NormalEntries(entries), NormalEntries(entries[1..]);
      assert all == [Entry(entries[0].key, Normal(entries[0].value))] + rest;
      assert all[0] == Entry(entries[0].key, Normal(entries[0].value));
      forall i | 0 <= i < |rest|
        ensures |rest[i].key| <= limits.maxString && Limited(rest[i].value, depth, limits)
      {
        assert rest[i] == all[i + 1];
      }
      LimitedIsWithin(entries[0].value, depth, limits, at, reach);
      LimitedEntries(entries[1..], depth, limits, at, reach);
    }
  }

  // ---------------------------------------------------------------- the promise, both ways

  function Larger(a: nat, b: nat): nat { if a < b then b else a }

  /** Limits that allow what either of two allows. */
  function Both(a: Limits, b: Limits): (r: Limits)
    ensures Wider(r, a) && Wider(r, b) && r.maxBytes >= a.maxBytes && r.maxBytes >= b.maxBytes
  {
    Limits(Larger(a.maxBytes, b.maxBytes), Larger(a.maxDepth, b.maxDepth),
           Larger(a.maxString, b.maxString), Larger(a.maxEntries, b.maxEntries))
  }

  lemma ParseWider(s: Text, limits: Limits, wide: Limits, rep: Representable)
    requires Wider(wide, limits) && wide.maxBytes >= limits.maxBytes && Parse(s, limits, rep).Some?
    ensures Parse(s, wide, rep) == Parse(s, limits, rep)
  {
    ValueWider(Skip(s), 0, limits, wide, rep);
  }

  /** The compact form of a value (printable: no floating-point numbers, keys in order, whatever its size) is
      accepted exactly when the text and the value are within the limits; it then reads back as the value. */
  lemma DumpReadsBackExactly(v: Json, reach: Limits, limits: Limits, rep: Representable)
    requires Within(v, 0, reach)
    ensures Parse(Dump(v), limits, rep).Some? <==> Within(v, 0, limits) && |Dump(v)| <= limits.maxBytes
    ensures Parse(Dump(v), limits, rep).Some? ==> Parse(Dump(v), limits, rep) == Some(Normal(v))
  {
    if Within(v, 0, limits) && |Dump(v)| <= limits.maxBytes {
      ParseOfDump(v, limits, rep);
    }
    if Parse(Dump(v), limits, rep).Some? {
      var wide := Both(reach, limits);
      AcceptedIsLimited(Dump(v), limits, rep);
      ParseWider(Dump(v), limits, wide, rep);
      WithinWider(v, 0, reach, wide);
      ParseOfDump(v, wide, rep);
      LimitedIsWithin(v, 0, limits, 0, reach);
    }
  }
}
