/** The strict parser keeps its limits: every value it returns is nested no deeper, holds no longer strings and no
    more entries than allowed, stores integers in range, and has each object's keys distinct and in order. */
module JsonLimits {
  import opened Common
  import opened JsonStrings
  import opened JsonNumbers
  import opened JsonValues
  import opened JsonRoundTrip

  predicate Limited(v: Json, depth: nat, limits: Limits)
    decreases v
  {
    && depth <= limits.maxDepth
    && match v
       case Num(x) => Stored(x)
       case Str(text) => |text| <= limits.maxString
       case Arr(items) => |items| <= limits.maxEntries
         && forall i :: 0 <= i < |items| ==> Limited(items[i], depth + 1, limits)
       case Obj(entries) =>
         && |entries| <= limits.maxEntries && Sorted(entries)
         && forall i :: 0 <= i < |entries| ==>
              |entries[i].key| <= limits.maxString && Limited(entries[i].value, depth + 1, limits)
       case _ => true
  }

  predicate AllItems(items: seq<Json>, depth: nat, limits: Limits) {
    forall i :: 0 <= i < |items| ==> Limited(items[i], depth, limits)
  }

  predicate AllEntries(entries: seq<Entry>, depth: nat, limits: Limits) {
    forall i :: 0 <= i < |entries| ==> |entries[i].key| <= limits.maxString && Limited(entries[i].value, depth, limits)
  }

  // ---------------------------------------------------------------- the order of keys

  lemma {:induction false} LessTotal(a: Text, b: Text)
    ensures Less(a, b) || a == b || Less(b, a)
  {
    if a != [] && b != [] && a[0] == b[0] {
      LessTotal(a[1..], b[1..]);
      if a[1..] == b[1..] { assert a == [a[0]] + a[1..] && b == [b[0]] + b[1..]; }
    }
  }

  lemma {:induction false} LessTransitive(a: Text, b: Text, c: Text)
    requires Less(a, b) && Less(b, c)
    ensures Less(a, c)
  {
    if a != [] && a[0] == b[0] && b[0] == c[0] { LessTransitive(a[1..], b[1..], c[1..]); }
  }

  /** Adding an entry above all others at the end. */
  lemma SortedAppend(entries: seq<Entry>, e: Entry)
    requires Sorted(entries) && forall i :: 0 <= i < |entries| ==> Less(entries[i].key, e.key)
    ensures Sorted(entries + [e]) && multiset(entries + [e]) == multiset(entries) + multiset{e}
  {
  }

  lemma AllBelowNew(head: seq<Entry>, last: Entry, e: Entry)
    requires Sorted(head + [last]) && Less(last.key, e.key)
    ensures forall i :: 0 <= i < |head + [last]| ==> Less((head + [last])[i].key, e.key)
  {
    var all := head + [last];
    forall i | 0 <= i < |head| ensures Less(all[i].key, e.key) {
      assert Less(all[i].key, all[|head|].key);
      LessTransitive(all[i].key, last.key, e.key);
    }
  }

  /** What an insertion in front of the last entry puts there is below it. */
  lemma AllBelowLast(head: seq<Entry>, last: Entry, e: Entry, inner: seq<Entry>)
    requires Sorted(head + [last]) && Less(e.key, last.key) && multiset(inner) == multiset(head) + multiset{e}
    ensures forall i :: 0 <= i < |inner| ==> Less(inner[i].key, last.key)
  {
    forall i | 0 <= i < |inner| ensures Less(inner[i].key, last.key) {
      assert inner[i] in multiset(inner);
      assert inner[i] in multiset(head) || inner[i] == e;
      if inner[i] != e {
        var j :| 0 <= j < |head| && head[j] == inner[i];
        assert (head + [last])[j] == head[j] && (head + [last])[|head|] == last;
      }
    }
  }

  lemma HeadOf(entries: seq<Entry>, e: Entry) returns (head: seq<Entry>, last: Entry)
    requires entries != [] && Sorted(entries) && !HasKey(entries, e.key)
    ensures entries == head + [last] && Sorted(head) && !HasKey(head, e.key) && last.key != e.key
    ensures head == entries[..|entries| - 1] && last == entries[|entries| - 1]
  {
    head, last := entries[..|entries| - 1], entries[|entries| - 1];
  }

  /** Inserting a new key keeps the entries sorted and adds exactly that entry. */
  lemma {:induction false} InsertKeepsSorted(entries: seq<Entry>, e: Entry)
    requires Sorted(entries) && !HasKey(entries, e.key)
    ensures Sorted(Insert(entries, e)) && multiset(Insert(entries, e)) == multiset(entries) + multiset{e}
    ensures |Insert(entries, e)| == |entries| + 1
  {
    if entries != [] {
      var head, last := HeadOf(entries, e);
      if Less(last.key, e.key) {
        AllBelowNew(head, last, e);
        SortedAppend(entries, e);
      } else {
        LessTotal(last.key, e.key);
        InsertKeepsSorted(head, e);
        AllBelowLast(head, last, e, Insert(head, e));
        SortedAppend(Insert(head, e), last);
        assert multiset(entries) == multiset(head) + multiset{last};
      }
    }
  }

  lemma InsertedAllEntries(entries: seq<Entry>, e: Entry, depth: nat, limits: Limits)
    requires Sorted(entries) && !HasKey(entries, e.key) && AllEntries(entries, depth, limits)
    requires |e.key| <= limits.maxString && Limited(e.value, depth, limits)
    ensures AllEntries(Insert(entries, e), depth, limits)
  {
    InsertKeepsSorted(entries, e);
    var after := Insert(entries, e);
    forall i | 0 <= i < |after| ensures |after[i].key| <= limits.maxString && Limited(after[i].value, depth, limits) {
      assert after[i] in multiset(after);
      assert after[i] in multiset(entries) || after[i] == e;
      if after[i] != e {
        assert after[i] in entries;
        var j :| 0 <= j < |entries| && entries[j] == after[i];
      }
    }
  }

  // ---------------------------------------------------------------- the parser

  lemma {:induction false} BodyLimited(s: Text, out: Text, limit: nat)
    requires |out| <= limit && Body(s, out, limit).Success?
    ensures |Body(s, out, limit).value| <= limit
    decreases |s|
  {
    if s[0] != QUOTE {
      var c := Character(s);
      BodyLimited(c.rest, out + c.value, limit);
    }
  }

  lemma {:induction false} ValueLimited(s: Text, depth: nat, limits: Limits, representable: Representable)
    requires ParseValue(s, depth, limits, representable).Success?
    ensures Limited(ParseValue(s, depth, limits, representable).value, depth, limits)
    decreases |s|, 0
  {
    if s[0] == OPEN_OBJECT {
      var t := Skip(s[1..]);
      if !(t != [] && t[0] == CLOSE_OBJECT) { EntriesLimited(t, depth, limits, representable, []); }
    } else if s[0] == OPEN_ARRAY {
      var t := Skip(s[1..]);
      if !(t != [] && t[0] == CLOSE_ARRAY) { ItemsLimited(t, depth, limits, representable, []); }
    } else if s[0] == QUOTE {
      BodyLimited(s[1..], [], limits.maxString);
    }
  }

  lemma {:induction false} ItemsLimited(s: Text, depth: nat, limits: Limits, representable: Representable,
                                        done: seq<Json>)
    requires depth <= limits.maxDepth && |done| <= limits.maxEntries && AllItems(done, depth + 1, limits)
    requires ParseItems(s, depth, limits, representable, done).Success?
    ensures Limited(ParseItems(s, depth, limits, representable, done).value, depth, limits)
    decreases |s|, 1
  {
    var v := ParseItem(s, depth, limits, representable);
    ValueLimited(Skip(s), depth + 1, limits, representable);
    assert AllItems(done + [v.value], depth + 1, limits);
    if v.rest[0] == COMMA { ItemsLimited(v.rest[1..], depth, limits, representable, done + [v.value]); }
  }

  lemma {:induction false} EntriesLimited(s: Text, depth: nat, limits: Limits, representable: Representable,
                                          done: seq<Entry>)
    requires depth <= limits.maxDepth && |done| <= limits.maxEntries && Sorted(done)
    requires AllEntries(done, depth + 1, limits)
    requires ParseEntries(s, depth, limits, representable, done).Success?
    ensures Limited(ParseEntries(s, depth, limits, representable, done).value, depth, limits)
    decreases |s|, 1
  {
    var e := ParseEntry(s, depth, limits, representable, done);
    var key := ParseKey(s, limits, done);
    KeyLimited(s, limits, done);
    ValueLimited(key.rest, depth + 1, limits, representable);
    InsertKeepsSorted(done, e.value);
    InsertedAllEntries(done, e.value, depth + 1, limits);
    if e.rest[0] == COMMA { EntriesLimited(e.rest[1..], depth, limits, representable, Insert(done, e.value)); }
  }

  lemma KeyLimited(s: Text, limits: Limits, done: seq<Entry>)
    requires ParseKey(s, limits, done).Success?
    ensures |ParseKey(s, limits, done).value| <= limits.maxString && |done| < limits.maxEntries
    ensures !HasKey(done, ParseKey(s, limits, done).value)
  {
    BodyLimited(Skip(s)[1..], [], limits.maxString);
  }

  /** Whatever text is accepted, the value is within the limits. */
  lemma AcceptedIsLimited(s: Text, limits: Limits, representable: Representable)
    requires Parse(s, limits, representable).Some?
    ensures Limited(Parse(s, limits, representable).value, 0, limits) && |s| <= limits.maxBytes
  {
    ValueLimited(Skip(s), 0, limits, representable);
  }
}
