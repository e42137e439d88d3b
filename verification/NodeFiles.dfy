/** What a node's durable files hold as text, and exactly which of them the node can load again: the state file is
    written as one JSON object and read back by the strict parser with its default limits; the record log is
    read back as a whole. */
module NodeFiles {
  import opened Common
  import opened ByteOrder
  import opened Documents
  import opened JsonStrings
  import opened JsonNumbers
  import opened JsonValues
  import opened JsonRoundTrip
  import opened JsonLimits
  import opened JsonExact
  import R = Replication
  import A = Authority
  import L = RecordLog

  datatype SavedState = SavedState(doc: Document, lsn: nat, lease: Option<A.Lease>, retired: bool)

  /** How the files are written, as far as it is not modelled: the entries of the state object after "fields", the
      text of a log record, the log's checksum, and which number tokens have a floating-point value. */
  datatype Layout = Layout(
    others: SavedState -> seq<Entry>, record: R.Record -> Text, crc: Checksum, representable: Representable)

  const FIELDS: Text := [0x66, 0x69, 0x65, 0x6C, 0x64, 0x73]

  // ---------------------------------------------------------------- writing the state file

  predicate Greatest(keys: set<Text>, k: Text) {
    k in keys && forall x :: x in keys && x != k ==> Less(x, k)
  }

  lemma {:induction false} GreatestExists(keys: set<Text>)
    requires keys != {}
    ensures exists k :: Greatest(keys, k)
    decreases |keys|
  {
    var x :| x in keys;
    if keys == {x} {
      assert Greatest(keys, x);
    } else {
      GreatestExists(keys - {x});
      var k :| Greatest(keys - {x}, k);
      LessTotal(x, k);
      if Less(x, k) {
        assert Greatest(keys, k);
      } else {
        forall y | y in keys && y != x ensures Less(y, x) { if y != k { LessTransitive(y, k, x); } }
        assert Greatest(keys, x);
      }
    }
  }

  lemma GreatestIsOne(keys: set<Text>, a: Text, b: Text)
    requires Greatest(keys, a) && Greatest(keys, b)
    ensures a == b
  {
    if a != b {
      LessTransitive(a, b, a);
      LessIrreflexive(a);
    }
  }

  /** The fields as the entries of an object, in the order of their keys. */
  function Listed(fields: Fields): (r: seq<Entry>)
    ensures |r| == |fields|
    ensures forall i :: 0 <= i < |r| ==> r[i].key in fields && r[i].value == Str(fields[r[i].key])
    decreases |fields|
  {
    if fields == map[] then []
    else
      GreatestExists(fields.Keys);
      assert forall a, b :: Greatest(fields.Keys, a) && Greatest(fields.Keys, b) ==> a == b by {
        forall a, b | Greatest(fields.Keys, a) && Greatest(fields.Keys, b) ensures a == b {
          GreatestIsOne(fields.Keys, a, b);
        }
      }
      var k :| k in fields.Keys && Greatest(fields.Keys, k);
      assert (fields - {k}).Keys == fields.Keys - {k};
      Listed(fields - {k}) + [Entry(k, Str(fields[k]))]
  }

  function StateEntries(s: SavedState, layout: Layout): (r: seq<Entry>)
    ensures r != []
  {
    [Entry(FIELDS, Obj(Listed(s.doc.fields)))] + layout.others(s)
  }

  /** The text of the state file. */
  function StateText(s: SavedState, layout: Layout): Text { Dump(Obj(StateEntries(s, layout))) }

  // ---------------------------------------------------------------- loading the state file

  /** The fields restored from the entries of an object, one by one. */
  function Restored(entries: seq<Entry>): Result<Fields> {
    if entries == [] then Ok(map[])
    else
      var n := |entries| - 1;
      var before := Restored(entries[..n]);
      if before.Err? then before
      else if !entries[n].value.Str? then Err(IntegrityFailure)
      else Put(before.value, entries[n].key, entries[n].value.text)
  }

  lemma {:induction false} RestoredStops(entries: seq<Entry>, n: nat)
    requires n <= |entries| && Restored(entries[..n]).Err?
    ensures Restored(entries) == Restored(entries[..n])
    decreases |entries|
  {
    if n < |entries| {
      var m := |entries| - 1;
      assert entries[..m][..n] == entries[..n];
      RestoredStops(entries[..m], n);
    } else {
      assert entries[..n] == entries;
    }
  }

  method RestoreFields(entries: seq<Entry>) returns (r: Result<Fields>)
    ensures r == Restored(entries)
  {
    var fields: Fields := map[];
    var i := 0;
    while i < |entries|
      invariant 0 <= i <= |entries| && Restored(entries[..i]) == Ok(fields)
    {
      assert entries[..i + 1][..i] == entries[..i];
      if !entries[i].value.Str? {
        RestoredStops(entries, i + 1);
        return Err(IntegrityFailure);
      }
      var put := Put(fields, entries[i].key, entries[i].value.text);
      if put.Err? {
        RestoredStops(entries, i + 1);
        return put;
      }
      fields := put.value;
      i := i + 1;
    }
    assert entries[..i] == entries;
    return Ok(fields);
  }

  function Find(entries: seq<Entry>, key: Text): Option<Json> {
    if entries == [] then None
    else if entries[0].key == key then Some(entries[0].value)
    else Find(entries[1..], key)
  }

  /** The fields a state file holds, or why it is refused. */
  function LoadedFields(text: Text, representable: Representable): Result<Fields> {
    var parsed := Parse(text, DEFAULT_LIMITS, representable);
    if parsed.None? || !parsed.value.Obj? then Err(IntegrityFailure)
    else
      var fields := Find(parsed.value.entries, FIELDS);
      if fields.None? || !fields.value.Obj? then Err(IntegrityFailure) else Restored(fields.value.entries)
  }

  // ---------------------------------------------------------------- exactly when it loads

  /** Keys and values within the document's bounds; how many there are is left open. */
  predicate TextsInRange(fields: Fields) {
    forall k :: k in fields ==> KeyInRange(k) && ValueInRange(fields[k])
  }

  /** A key that is there at most once. */
  predicate KeysApart(entries: seq<Entry>) {
    forall i, j :: 0 <= i < j < |entries| ==> entries[i].key != entries[j].key
  }

  predicate Storable(e: Entry) { e.value.Str? && KeyInRange(e.key) && ValueInRange(e.value.text) }

  predicate AllStorable(entries: seq<Entry>) { forall i :: 0 <= i < |entries| ==> Storable(entries[i]) }

  predicate HasField(fields: Fields, e: Entry) { e.value.Str? && e.key in fields && fields[e.key] == e.value.text }

  /** One field for each entry. */
  predicate OneEach(fields: Fields, entries: seq<Entry>) {
    && |fields| == |entries| && (forall i :: 0 <= i < |entries| ==> HasField(fields, entries[i]))
    && forall k :: k in fields ==> HasKey(entries, k)
  }

  lemma NewKey(fields: Fields, front: seq<Entry>, last: Entry)
    requires (forall k :: k in fields ==> HasKey(front, k)) && KeysApart(front + [last])
    ensures last.key !in fields && forall i :: 0 <= i < |front| ==> front[i].key != last.key
  {
    var all := front + [last];
    forall i | 0 <= i < |front| ensures front[i].key != last.key {
      assert all[i] == front[i] && all[|front|] == last;
    }
  }

  lemma OneFieldMore(fields: Fields, key: Text, value: Text)
    requires key !in fields
    ensures |fields[key := value]| == |fields| + 1
  {
    assert fields[key := value].Keys == fields.Keys + {key};
  }

  lemma FieldsKept(fields: Fields, front: seq<Entry>, last: Entry, i: nat)
    requires i <= |front| && last.value.Str?
    requires forall j :: 0 <= j < |front| ==> HasField(fields, front[j]) && front[j].key != last.key
    ensures HasField(fields[last.key := last.value.text], (front + [last])[i])
  {
    if i < |front| { assert HasField(fields, front[i]) && (front + [last])[i] == front[i]; }
  }

  lemma KeyKept(front: seq<Entry>, last: Entry, k: Text)
    requires HasKey(front, k) || k == last.key
    ensures HasKey(front + [last], k)
  {
    var all := front + [last];
    if k == last.key {
      assert all[|front|].key == k;
    } else {
      var i :| 0 <= i < |front| && front[i].key == k;
      assert all[i].key == k;
    }
  }

  lemma FieldAdded(fields: Fields, front: seq<Entry>, last: Entry)
    requires OneEach(fields, front) && last.value.Str? && KeysApart(front + [last])
    ensures last.key !in fields && OneEach(fields[last.key := last.value.text], front + [last])
  {
    var all, after := front + [last], fields[last.key := last.value.text];
    NewKey(fields, front, last);
    OneFieldMore(fields, last.key, last.value.text);
    forall i | 0 <= i < |all| ensures HasField(after, all[i]) { FieldsKept(fields, front, last, i); }
    forall k | k in after ensures HasKey(all, k) { KeyKept(front, last, k); }
  }

  lemma RestoredUnfolds(front: seq<Entry>, last: Entry, before: Result<Fields>)
    requires Restored(front) == before
    ensures Restored(front + [last]) ==
            if before.Err? then before
            else if !last.value.Str? then Err(IntegrityFailure)
            else Put(before.value, last.key, last.value.text)
  {
    var all := front + [last];
    assert all[..|front|] == front && all[|front|] == last;
  }

  lemma StoredOne(fields: Fields, e: Entry)
    requires e.value.Str? && e.key !in fields
    ensures Put(fields, e.key, e.value.text).Ok? <==> Storable(e) && |fields| < MAX_STATE_FIELDS
  {
  }

  lemma RestoredOne(front: seq<Entry>, last: Entry)
    requires KeysApart(front + [last])
    requires Restored(front).Ok? ==> OneEach(Restored(front).value, front)
    ensures Restored(front + [last]).Ok? <==> Restored(front).Ok? && Storable(last) && |front| < MAX_STATE_FIELDS
    ensures Restored(front + [last]).Ok? ==> OneEach(Restored(front + [last]).value, front + [last])
  {
    var before := Restored(front);
    RestoredUnfolds(front, last, before);
    if before.Ok? && last.value.Str? {
      FieldAdded(before.value, front, last);
      StoredOne(before.value, last);
    }
  }

  /** Fields are restored exactly when each is a string within bounds and they are not too many; there is then one for
      each entry. */
  lemma {:induction false} RestoredExactly(entries: seq<Entry>)
    requires KeysApart(entries)
    ensures Restored(entries).Ok? <==> |entries| <= MAX_STATE_FIELDS && AllStorable(entries)
    ensures Restored(entries).Ok? ==> OneEach(Restored(entries).value, entries)
  {
    if entries != [] {
      var front, last := entries[..|entries| - 1], entries[|entries| - 1];
      assert entries == front + [last];
      RestoredExactly(front);
      RestoredOne(front, last);
      assert AllStorable(entries) <==> AllStorable(front) && Storable(last);
    }
  }

  /** A text that is no object, has no "fields" or has something else than an object there is refused as damaged. */
  lemma DamagedTextIsRefused(text: Text, representable: Representable)
    requires var parsed := Parse(text, DEFAULT_LIMITS, representable);
             || parsed.None? || !parsed.value.Obj?
             || (forall i :: 0 <= i < |parsed.value.entries| ==>
                   parsed.value.entries[i].key != FIELDS || !parsed.value.entries[i].value.Obj?)
    ensures LoadedFields(text, representable) == Err(IntegrityFailure)
  {
    var parsed := Parse(text, DEFAULT_LIMITS, representable);
    if parsed.Some? && parsed.value.Obj? { FoundIsThere(parsed.value.entries, FIELDS); }
  }

  lemma {:induction false} FoundIsThere(entries: seq<Entry>, key: Text)
    ensures Find(entries, key).Some? ==>
              exists i :: 0 <= i < |entries| && entries[i].key == key && entries[i].value == Find(entries, key).value
    ensures Find(entries, key).None? ==> forall i :: 0 <= i < |entries| ==> entries[i].key != key
  {
    if entries != [] && entries[0].key != key {
      FoundIsThere(entries[1..], key);
      var rest := entries[1..];
      if Find(rest, key).Some? {
        var i :| 0 <= i < |rest| && rest[i].key == key && rest[i].value == Find(rest, key).value;
        assert entries[i + 1] == rest[i];
      }
    }
  }

  /** The last listed field and the ones before it. */
  lemma ListedLast(fields: Fields) returns (k: Text, fewer: Fields)
    requires fields != map[]
    ensures Greatest(fields.Keys, k) && k !in fewer && fewer[k := fields[k]] == fields && |fewer| < |fields|
    ensures Listed(fields) == Listed(fewer) + [Entry(k, Str(fields[k]))]
  {
    k := Listed(fields)[|fields| - 1].key;
    fewer := fields - {k};
    assert fewer.Keys == fields.Keys - {k};
  }

  lemma InRangeSplits(fields: Fields, fewer: Fields, k: Text)
    requires k in fields && k !in fewer && fewer[k := fields[k]] == fields
    ensures TextsInRange(fields) <==> TextsInRange(fewer) && KeyInRange(k) && ValueInRange(fields[k])
  {
    assert forall x :: x in fewer ==> x in fields && fields[x] == fewer[x];
  }

  /** The listed fields are restored exactly when each of them is within the document's bounds. */
  lemma {:induction false} RestoredListed(fields: Fields)
    requires |fields| <= MAX_STATE_FIELDS
    ensures Restored(Listed(fields)) == if TextsInRange(fields) then Ok(fields) else Err(BoundsExceeded)
    decreases |fields|
  {
    if fields != map[] {
      var k, fewer := ListedLast(fields);
      RestoredListed(fewer);
      RestoredUnfolds(Listed(fewer), Entry(k, Str(fields[k])), Restored(Listed(fewer)));
      InRangeSplits(fields, fewer, k);
    }
  }

  lemma {:induction false} ListedSorted(fields: Fields)
    ensures Sorted(Listed(fields))
    decreases |fields|
  {
    if fields != map[] {
      var k, fewer := ListedLast(fields);
      ListedSorted(fewer);
      var all, n := Listed(fields), |Listed(fewer)|;
      forall i, j | 0 <= i < j < |all| ensures Less(all[i].key, all[j].key) {
        assert all[i] == Listed(fewer)[i];
        if j < n { assert all[j] == Listed(fewer)[j]; }
      }
    }
  }

  /** Every entry is a string; its key and text are within the limit. */
  predicate TextEntries(entries: seq<Entry>, limit: nat) {
    forall i :: 0 <= i < |entries| ==>
      entries[i].value.Str? && |entries[i].key| <= limit && |entries[i].value.text| <= limit
  }

  lemma {:induction false} TextEntriesWithin(entries: seq<Entry>, depth: nat, limits: Limits)
    requires depth <= limits.maxDepth && TextEntries(entries, limits.maxString)
    ensures EntriesWithin(entries, depth, limits)
  {
    if entries != [] {
      assert TextEntries(entries[1..], limits.maxString);
      TextEntriesWithin(entries[1..], depth, limits);
    }
  }

  lemma {:induction false} TextEntriesNormal(entries: seq<Entry>)
    requires forall i :: 0 <= i < |entries| ==> entries[i].value.Str?
    ensures NormalEntries(entries) == entries
  {
    if entries != [] { TextEntriesNormal(entries[1..]); }
  }

  /** Some length that no key or text of the entries exceeds. */
  function Longest(entries: seq<Entry>): (r: nat)
    requires forall i :: 0 <= i < |entries| ==> entries[i].value.Str?
    ensures TextEntries(entries, r)
  {
    if entries == [] then 0
    else
      var n := |entries| - 1;
      var rest := Longest(entries[..n]);
      assert forall i :: 0 <= i < n ==> entries[i] == entries[..n][i];
      Larger(rest, Larger(|entries[n].key|, |entries[n].value.text|))
  }

  /** The other entries of the state object come after "fields", in order, and can be printed and read back under
      some limits. */
  predicate Sound(s: SavedState, layout: Layout, reach: Limits) {
    Sorted(StateEntries(s, layout)) && EntriesWithin(layout.others(s), 1, reach)
  }

  /** The other entries keep the parser's default limits. */
  predicate OthersFit(s: SavedState, layout: Layout) {
    |layout.others(s)| < DEFAULT_LIMITS.maxEntries && EntriesWithin(layout.others(s), 1, DEFAULT_LIMITS)
  }

  /** What a state must keep to for its file to load. */
  predicate StateFits(s: SavedState, layout: Layout) {
    && |s.doc.fields| <= DEFAULT_LIMITS.maxEntries && TextsInRange(s.doc.fields)
    && |StateText(s, layout)| <= DEFAULT_LIMITS.maxBytes && OthersFit(s, layout)
  }

  lemma StateWithin(s: SavedState, layout: Layout, limits: Limits)
    requires Sorted(StateEntries(s, layout)) && EntriesWithin(layout.others(s), 1, limits)
    requires |layout.others(s)| < limits.maxEntries && |s.doc.fields| <= limits.maxEntries && limits.maxDepth >= 2
    requires |FIELDS| <= limits.maxString && TextEntries(Listed(s.doc.fields), limits.maxString)
    ensures Within(Obj(StateEntries(s, layout)), 0, limits)
  {
    var entries := StateEntries(s, layout);
    ListedSorted(s.doc.fields);
    TextEntriesWithin(Listed(s.doc.fields), 2, limits);
    assert entries[1..] == layout.others(s);
  }

  /** Every state can be printed and read back under some limits. */
  lemma StateReaches(s: SavedState, layout: Layout, reach: Limits) returns (wide: Limits)
    requires Sound(s, layout, reach)
    ensures Within(Obj(StateEntries(s, layout)), 0, wide)
  {
    var listed, others := Listed(s.doc.fields), layout.others(s);
    wide := Both(reach, Limits(0, 2, Longest(listed) + |FIELDS|, |others| + |listed| + 1));
    EntriesWithinWider(others, 1, reach, wide);
    StateWithin(s, layout, wide);
  }

  lemma WithinIsState(s: SavedState, layout: Layout)
    requires Within(Obj(StateEntries(s, layout)), 0, DEFAULT_LIMITS)
    ensures OthersFit(s, layout) && |s.doc.fields| <= DEFAULT_LIMITS.maxEntries
  {
    var entries := StateEntries(s, layout);
    assert entries[1..] == layout.others(s);
    assert Within(entries[0].value, 1, DEFAULT_LIMITS);
  }

  lemma InRangeListed(fields: Fields)
    requires TextsInRange(fields)
    ensures TextEntries(Listed(fields), DEFAULT_LIMITS.maxString)
  {
  }

  lemma FirstNormal(entries: seq<Entry>)
    requires entries != [] && entries[0].value.Obj?
    ensures NormalEntries(entries)[0] == Entry(entries[0].key, Obj(NormalEntries(entries[0].value.entries)))
  {
  }

  /** What a state file that parses holds under "fields". */
  lemma ParsedFields(s: SavedState, layout: Layout)
    requires Parse(StateText(s, layout), DEFAULT_LIMITS, layout.representable)
          == Some(Normal(Obj(StateEntries(s, layout))))
    ensures LoadedFields(StateText(s, layout), layout.representable) == Restored(Listed(s.doc.fields))
  {
    var listed := Listed(s.doc.fields);
    TextEntriesNormal(listed);
    FirstNormal(StateEntries(s, layout));
    var normal := NormalEntries(StateEntries(s, layout));
    assert normal[0] == Entry(FIELDS, Obj(listed));
  }

  /** A state file loads exactly when it is at most 4 MiB long, holds at most 65536 fields, each within the
      document's bounds, and its other entries keep the parser's limits; it then holds the fields that were
      saved. */
  lemma StateLoadsExactly(s: SavedState, layout: Layout, reach: Limits)
    requires Sound(s, layout, reach)
    ensures var r := LoadedFields(StateText(s, layout), layout.representable);
            (r.Ok? <==> StateFits(s, layout)) && (r.Ok? ==> r.value == s.doc.fields)
  {
    var json := Obj(StateEntries(s, layout));
    var wide := StateReaches(s, layout, reach);
    DumpReadsBackExactly(json, wide, DEFAULT_LIMITS, layout.representable);
    if StateFits(s, layout) {
      InRangeListed(s.doc.fields);
      StateWithin(s, layout, DEFAULT_LIMITS);
    }
    if Parse(Dump(json), DEFAULT_LIMITS, layout.representable).Some? {
      WithinIsState(s, layout);
      ParsedFields(s, layout);
      RestoredListed(s.doc.fields);
    }
  }

  // ---------------------------------------------------------------- a document that is saved and not loaded

  lemma {:induction false} EscapedIsLonger(text: Text)
    ensures |EscapedBody(text)| >= |text|
  {
    if text != [] { EscapedIsLonger(text[1..]); }
  }

  /** The entries' text is no shorter than the first entry's value and the text of the rest. */
  lemma FirstIsShorter(entries: seq<Entry>)
    requires entries != []
    ensures |DumpEntries(entries)| >= |Dump(entries[0].value)| + |DumpEntries(entries[1..])|
  {
    assert |DumpEntry(entries[0])| >= |Dump(entries[0].value)|;
    if |entries| == 1 { assert entries[1..] == []; }
  }

  lemma {:induction false} EntriesAreLong(entries: seq<Entry>, m: nat)
    requires forall i :: 0 <= i < |entries| ==> entries[i].value.Str? && |entries[i].value.text| >= m
    ensures |DumpEntries(entries)| >= |entries| * m
  {
    if entries != [] {
      var rest, n := entries[1..], |entries| - 1;
      FirstIsShorter(entries);
      StringIsLonger(entries[0].value);
      EntriesAreLong(rest, m);
      OneMore(n, m);
    }
  }

  lemma StringIsLonger(v: Json)
    requires v.Str?
    ensures |Dump(v)| >= |v.text|
  {
    EscapedIsLonger(v.text);
  }

  lemma OneMore(n: nat, m: nat)
    ensures (n + 1) * m == m + n * m
  {
  }

  lemma ObjectIsLonger(entries: seq<Entry>)
    requires entries != [] && entries[0].value.Obj?
    ensures |Dump(Obj(entries))| > |DumpEntries(entries[0].value.entries)|
  {
    FirstIsShorter(entries);
  }

  /** However the rest is laid out, a state whose values alone fill 4 MiB is refused. */
  lemma LargeStateIsRefused(s: SavedState, layout: Layout, m: nat)
    requires forall k :: k in s.doc.fields ==> |s.doc.fields[k]| >= m
    requires |s.doc.fields| * m >= DEFAULT_LIMITS.maxBytes
    ensures LoadedFields(StateText(s, layout), layout.representable) == Err(IntegrityFailure)
  {
    var listed := Listed(s.doc.fields);
    EntriesAreLong(listed, m);
    ObjectIsLonger(StateEntries(s, layout));
    LongTextIsRefused(StateText(s, layout), layout.representable);
  }

  lemma LongTextIsRefused(text: Text, representable: Representable)
    requires |text| > DEFAULT_LIMITS.maxBytes
    ensures LoadedFields(text, representable) == Err(IntegrityFailure)
  {
  }

  /** The document after `n` writes of the longest value under different keys. */
  function Large(n: nat): Fields
    requires n <= 256
  {
    if n == 0 then map[] else Large(n - 1)[[n - 1] := seq(MAX_STATE_VALUE_BYTES, _ => 0x61)]
  }

  /** Each of those writes is accepted. */
  lemma {:induction false} LargeIsWritten(n: nat)
    requires n <= 256
    ensures |Large(n)| == n && Bounded(Large(n))
    ensures forall k :: k in Large(n) ==> |k| == 1 && k[0] < n && |Large(n)[k]| == MAX_STATE_VALUE_BYTES
    ensures n > 0 ==> Put(Large(n - 1), [n - 1], seq(MAX_STATE_VALUE_BYTES, _ => 0x61)) == Ok(Large(n))
  {
    if n > 0 {
      LargeIsWritten(n - 1);
      var key: Text := [n - 1];
      assert key !in Large(n - 1);
      assert Large(n).Keys == Large(n - 1).Keys + {key};
    }
  }

  /** Sixty-four accepted writes, or more, make a bounded document whose state file is refused. */
  lemma SavedStateIsRefused(s: SavedState, layout: Layout, n: nat)
    requires 64 <= n <= 256 && s.doc.fields == Large(n)
    ensures Bounded(s.doc.fields) && LoadedFields(StateText(s, layout), layout.representable) == Err(IntegrityFailure)
  {
    LargeIsWritten(n);
    LargeStateIsRefused(s, layout, MAX_STATE_VALUE_BYTES);
  }

  // ---------------------------------------------------------------- the record log

  function Texts(log: seq<R.Record>, layout: Layout): seq<L.Record> {
    seq(|log|, i requires 0 <= i < |log| => layout.record(log[i]))
  }

  /** The bytes of the record log. */
  function LogBytes(log: seq<R.Record>, layout: Layout): seq<Byte> {
    L.Log(L.EncoderOf(layout.crc), Texts(log, layout))
  }

  /** The texts read from the record log, or why it is refused. */
  function LoadedTexts(log: seq<R.Record>, layout: Layout): Result<seq<L.Record>> {
    if |LogBytes(log, layout)| > L.MAX_FILE_BYTES then Err(BoundsExceeded)
    else
      var report := L.Read(L.ReaderOf(layout.crc), LogBytes(log, layout), 0);
      if report.Err? then Err(report.code) else Ok(report.value.records)
  }

  predicate LogFits(log: seq<R.Record>, layout: Layout) {
    |LogBytes(log, layout)| <= L.MAX_FILE_BYTES && |log| <= L.MAX_LOG_RECORDS
  }

  /** A log of records that could be appended loads exactly when the file and the number of records are within the
      reader's limits, and then holds every record. */
  lemma LogLoadsExactly(log: seq<R.Record>, layout: Layout)
    requires L.WithinLimits(Texts(log, layout))
    ensures LoadedTexts(log, layout).Ok? <==> LogFits(log, layout)
    ensures LoadedTexts(log, layout).Ok? ==> LoadedTexts(log, layout).value == Texts(log, layout)
  {
    var texts := Texts(log, layout);
    if |log| <= L.MAX_LOG_RECORDS {
      L.WholeLogReadsBack(layout.crc, texts);
    } else {
      L.LongLogIsRefused(layout.crc, texts);
    }
  }
}
