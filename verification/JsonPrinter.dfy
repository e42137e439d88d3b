/** The printer that appends the compact form to a shared output, against its specification. */
module JsonPrinter {
  import opened Common
  import opened JsonStrings
  import opened JsonNumbers
  import opened JsonValues

  // ---------------------------------------------------------------- printing

  method AppendEscaped(out: Text, text: Text) returns (r: Text)
    ensures r == out + Escaped(text)
  {
    r := out + [QUOTE];
    var i := 0;
    assert text[0..] == text;
    while i < |text|
      invariant 0 <= i <= |text|
      invariant r + EscapedBody(text[i..]) == out + [QUOTE] + EscapedBody(text)
    {
      assert text[i..][1..] == text[i + 1..];
      assert r + EscapedBody(text[i..]) == r + EscapedByte(text[i]) + EscapedBody(text[i + 1..]);
      r := r + EscapedByte(text[i]);
      i := i + 1;
    }
    assert EscapedBody(text[i..]) == [];
    r := r + [QUOTE];
    assert out + ([QUOTE] + EscapedBody(text) + [QUOTE]) == out + [QUOTE] + EscapedBody(text) + [QUOTE];
  }

  /** What is still to be printed before element i of an array, or entry i of an object. */
  function ItemsFrom(items: seq<Json>, i: nat): Text
    requires i <= |items|
  {
    if i == |items| then [] else Separator(i) + DumpItems(items[i..])
  }

  function EntriesFrom(entries: seq<Entry>, i: nat): Text
    requires i <= |entries|
  {
    if i == |entries| then [] else Separator(i) + DumpEntries(entries[i..])
  }

  function Separator(i: nat): Text { if i == 0 then [] else [COMMA] }

  lemma Regroup(a: Text, b: Text, c: Text)
    ensures a + (b + c) == a + b + c
  {
  }

  lemma ItemsFromNext(items: seq<Json>, i: nat)
    requires i < |items|
    ensures ItemsFrom(items, i) == Separator(i) + (Dump(items[i]) + ItemsFrom(items, i + 1))
  {
    assert items[i..][1..] == items[i + 1..];
    Regroup(Dump(items[i]), [COMMA], DumpItems(items[i + 1..]));
  }

  lemma EntriesFromNext(entries: seq<Entry>, i: nat)
    requires i < |entries|
    ensures EntriesFrom(entries, i) == Separator(i) + (DumpEntry(entries[i]) + EntriesFrom(entries, i + 1))
  {
    assert entries[i..][1..] == entries[i + 1..];
    Regroup(DumpEntry(entries[i]), [COMMA], DumpEntries(entries[i + 1..]));
  }

  /** Appending the separator and the next piece keeps what the output will come to. */
  lemma Appended(r: Text, separator: Text, piece: Text, rest: Text, whole: Text)
    requires r + (separator + (piece + rest)) == whole
    ensures r + separator + piece + rest == whole
  {
    Regroup(r, separator, piece + rest);
    Regroup(r + separator, piece, rest);
  }

  /** Appends the compact form of a value. */
  method DumpValue(out: Text, v: Json) returns (r: Text)
    ensures r == out + Dump(v)
    decreases v, 2
  {
    match v
    case Null => r := out + NULL_WORD;
    case Bool(flag) => r := out + if flag then TRUE_WORD else FALSE_WORD;
    case Num(x) => r := out + DumpNumber(x);
    case Str(text) => r := AppendEscaped(out, text);
    case Arr(items) => r := DumpArray(out, v, items);
    case Obj(entries) => r := DumpObject(out, v, entries);
  }

  /** The elements of an array, a comma between any two. */
  method DumpElements(out: Text, ghost v: Json, items: seq<Json>) returns (r: Text)
    requires v == Arr(items)
    ensures r == out + DumpItems(items)
    decreases v, 0
  {
    r := out;
    ghost var whole := out + ItemsFrom(items, 0);
    var i := 0;
    while i < |items|
      invariant 0 <= i <= |items|
      invariant r + ItemsFrom(items, i) == whole
    {
      ItemsFromNext(items, i);
      Appended(r, Separator(i), Dump(items[i]), ItemsFrom(items, i + 1), whole);
      r := r + Separator(i);
      r := DumpValue(r, items[i]);
      i := i + 1;
    }
    NothingLeft(r, whole);
    AllItems(items);
  }

  method DumpArray(out: Text, ghost v: Json, items: seq<Json>) returns (r: Text)
    requires v == Arr(items)
    ensures r == out + Dump(v)
    decreases v, 1
  {
    if items == [] {
      r := out + [OPEN_ARRAY, CLOSE_ARRAY];
      return;
    }
    r := out + [OPEN_ARRAY];
    r := DumpElements(r, v, items);
    Closed(out, [OPEN_ARRAY], DumpItems(items), [CLOSE_ARRAY]);
    r := r + [CLOSE_ARRAY];
  }

  lemma NothingLeft(r: Text, whole: Text)
    requires r + [] == whole
    ensures r == whole
  {
    assert r + [] == r;
  }

  lemma AllItems(items: seq<Json>)
    ensures ItemsFrom(items, 0) == DumpItems(items)
  {
    assert items[0..] == items && [] + DumpItems(items) == DumpItems(items);
  }

  lemma AllEntries(entries: seq<Entry>)
    ensures EntriesFrom(entries, 0) == DumpEntries(entries)
  {
    assert entries[0..] == entries && [] + DumpEntries(entries) == DumpEntries(entries);
  }

  lemma Closed(out: Text, open: Text, body: Text, close: Text)
    ensures out + open + body + close == out + (open + body + close)
  {
    Regroup(out, open, body);
    Regroup(out, open + body, close);
  }

  /** The entries of an object, a comma between any two. */
  method DumpPairs(out: Text, ghost v: Json, entries: seq<Entry>) returns (r: Text)
    requires v == Obj(entries)
    ensures r == out + DumpEntries(entries)
    decreases v, 0
  {
    r := out;
    ghost var whole := out + EntriesFrom(entries, 0);
    var i := 0;
    while i < |entries|
      invariant 0 <= i <= |entries|
      invariant r + EntriesFrom(entries, i) == whole
    {
      EntriesFromNext(entries, i);
      Appended(r, Separator(i), DumpEntry(entries[i]), EntriesFrom(entries, i + 1), whole);
      r := r + Separator(i);
      r := DumpPair(r, entries[i]);
      i := i + 1;
    }
    NothingLeft(r, whole);
    AllEntries(entries);
  }

  method DumpObject(out: Text, ghost v: Json, entries: seq<Entry>) returns (r: Text)
    requires v == Obj(entries)
    ensures r == out + Dump(v)
    decreases v, 1
  {
    if entries == [] {
      r := out + [OPEN_OBJECT, CLOSE_OBJECT];
      return;
    }
    r := out + [OPEN_OBJECT];
    r := DumpPairs(r, v, entries);
    Closed(out, [OPEN_OBJECT], DumpEntries(entries), [CLOSE_OBJECT]);
    r := r + [CLOSE_OBJECT];
  }

  method DumpPair(out: Text, e: Entry) returns (r: Text)
    ensures r == out + DumpEntry(e)
    decreases e
  {
    r := AppendEscaped(out, e.key);
    r := r + [COLON];
    Regroup(out, Escaped(e.key), [COLON]);
    Regroup(out, Escaped(e.key) + [COLON], Dump(e.value));
    r := DumpValue(r, e.value);
  }
}
