/** The node object: its fields are changed step by step by the operations, and every replacement of durable
    storage is recorded in a ghost trail, so that "a crash between two durable operations" is any entry
    of the trail. */
module ControlPlaneNode {
  import opened Common
  import opened Documents
  import opened Replication
  import opened NodeFiles
  import N = NodeAuthority
  import A = Authority
  import L = RecordLog
  import J = JsonValues

  /** Durable storage: the identity file's boot counter, the state file and the record log. */
  datatype Disk = Disk(boot: nat, state: Option<SavedState>, log: seq<Record>)

  /** The source a successor was prepared for. */
  datatype SourceBinding = SourceBinding(
    source: A.Incarnation, epoch: nat, generation: nat, token: nat, schema: nat, handoff: nat)

  predicate Matches(a: SourceBinding, b: SourceBinding) {
    a.source == b.source && a.epoch == b.epoch && a.generation == b.generation
    && a.token == b.token && a.schema == b.schema
  }

  /** Why a replicated batch is refused as a whole, if it is. */
  function BatchRefusal(expected: Option<SourceBinding>, handoff: nat, presented: SourceBinding, size: nat,
                        limit: nat): Option<ErrorCode> {
    if expected.None? || expected.value.handoff != handoff then Some(IllegalTransition)
    else if !Matches(presented, expected.value) then Some(StaleGeneration)
    else if size > limit then Some(BoundsExceeded)
    else None
  }

  /** A batch is let in exactly when a source is expected for this handoff, the presented binding agrees with it in
      incarnation, epoch, generation, token and schema, and the batch is no longer than allowed. */
  lemma BatchLetInExactly(
    expected: Option<SourceBinding>, handoff: nat, presented: SourceBinding, size: nat, limit: nat)
    ensures BatchRefusal(expected, handoff, presented, size, limit).None? <==>
            && expected.Some? && expected.value.handoff == handoff && size <= limit
            && presented.(handoff := 0) == expected.value.(handoff := 0)
    ensures expected.Some? && expected.value.handoff == handoff
            && presented.(handoff := 0) != expected.value.(handoff := 0) ==>
            BatchRefusal(expected, handoff, presented, size, limit) == Some(StaleGeneration)
  {
  }

  // ---------------------------------------------------------------- crash points

  /** The log reaches the position of the state file, or there is nothing to reach. */
  predicate Recoverable(d: Disk) {
    && Consecutive(d.log)
    && (d.state.Some? && d.log != [] ==> d.state.value.lsn <= d.log[|d.log| - 1].lsn)
    && (d.state.None? ==> d.log == [])
  }

  /** A disk an operation passes through: recoverable, and holding either the state saved before the
      operation or the one it saves. */
  predicate CrashPoint(d: Disk, before: Disk, after: Disk) {
    Recoverable(d) && d.boot == before.boot && (d.state == before.state || d.state == after.state)
  }

  predicate CrashPoints(trail: seq<Disk>, from: nat, before: Disk, after: Disk)
    requires from <= |trail|
  {
    forall i :: from <= i < |trail| ==> CrashPoint(trail[i], before, after)
  }

  // ---------------------------------------------------------------- reopening

  datatype Opened = Opened(auth: N.NodeState, mem: Replica, disk: Disk)

  /** The state a node starts from: what its state file says, or an empty document when there is none. */
  function StateOf(d: Disk, schema: nat): SavedState {
    if d.state.Some? then d.state.value else SavedState(Document(schema, map[]), 0, None, false)
  }

  /** The fields the node finds there. */
  function FieldsOf(d: Disk, layout: Layout): Result<Fields> {
    if d.state.None? then Ok(map[]) else LoadedFields(StateText(d.state.value, layout), layout.representable)
  }

  /** What opening a node on this disk yields, or the refusal. */
  function Reopen(d: Disk, layout: Layout, component: string, uuid: nat, schema: nat): Result<Opened> {
    ReopenWith(d, FieldsOf(d, layout), LoadedTexts(d.log, layout), component, uuid, schema)
  }

  /** The same, given what loading each file yields. */
  function ReopenWith(d: Disk, fields: Result<Fields>, texts: Result<seq<Text>>, component: string, uuid: nat,
                      schema: nat)
    : Result<Opened>
  {
    if d.boot >= MAX_U64 then Err(BoundsExceeded)
    else if fields.Err? then Err(fields.code)
    else if texts.Err? then Err(texts.code)
    else
      var s := StateOf(d, schema);
      Ok(OpenedFrom(d, s.(doc := s.doc.(fields := fields.value)), A.Incarnation(component, uuid, d.boot + 1)))
  }

  /** The opened node, once both files are loaded. */
  function OpenedFrom(d: Disk, s: SavedState, incarnation: A.Incarnation): Opened {
    var auth := N.Booted(incarnation, s.lease, s.retired);
    var records := Committed(d.log, s.lsn);
    Opened(auth, Replica(s.doc, s.lsn, records), Disk(incarnation.boot, Some(s.(lease := auth.lease)), records))
  }

  /** The disk can be written in this layout: the state object can be printed, under some limits, and every log
      record is short enough to be appended. */
  predicate Written(d: Disk, layout: Layout, reach: J.Limits) {
    L.WithinLimits(Texts(d.log, layout)) && (d.state.Some? ==> Sound(d.state.value, layout, reach))
  }

  /** Both files keep the limits they are read with, and the boot counter is not exhausted. */
  predicate Openable(d: Disk, layout: Layout) {
    d.boot < MAX_U64 && LogFits(d.log, layout) && (d.state.Some? ==> StateFits(d.state.value, layout))
  }

  lemma FilesLoadExactly(d: Disk, layout: Layout, reach: J.Limits, schema: nat)
    requires Written(d, layout, reach)
    ensures d.boot < MAX_U64 && FieldsOf(d, layout).Ok? && LoadedTexts(d.log, layout).Ok? <==> Openable(d, layout)
    ensures FieldsOf(d, layout).Ok? ==> FieldsOf(d, layout).value == StateOf(d, schema).doc.fields
  {
    LogLoadsExactly(d.log, layout);
    if d.state.Some? { StateLoadsExactly(d.state.value, layout, reach); }
  }

  lemma ReopenLoaded(d: Disk, fields: Result<Fields>, texts: Result<seq<Text>>, component: string, uuid: nat,
                     schema: nat)
    requires fields.Ok? ==> fields.value == StateOf(d, schema).doc.fields
    ensures var r := ReopenWith(d, fields, texts, component, uuid, schema);
            && (r.Ok? <==> d.boot < MAX_U64 && fields.Ok? && texts.Ok?)
            && (r.Ok? ==> r.value == OpenedFrom(d, StateOf(d, schema), A.Incarnation(component, uuid, d.boot + 1)))
  {
  }

  /** Such a disk opens, and no other; nothing of the saved state is lost. */
  lemma ReopensExactly(d: Disk, layout: Layout, reach: J.Limits, component: string, uuid: nat, schema: nat)
    requires Written(d, layout, reach)
    ensures var r := Reopen(d, layout, component, uuid, schema);
            && (r.Ok? <==> Openable(d, layout))
            && (r.Ok? ==> r.value == OpenedFrom(d, StateOf(d, schema), A.Incarnation(component, uuid, d.boot + 1)))
  {
    FilesLoadExactly(d, layout, reach, schema);
    ReopenLoaded(d, FieldsOf(d, layout), LoadedTexts(d.log, layout), component, uuid, schema);
  }

  lemma OpenedAfterCrash(d: Disk, schema: nat, incarnation: A.Incarnation, now: nat)
    requires Recoverable(d) && incarnation.boot > d.boot
    ensures var r := OpenedFrom(d, StateOf(d, schema), incarnation);
            && (d.state.Some? ==> r.mem.doc == d.state.value.doc && r.mem.lsn == d.state.value.lsn)
            && Gapless(r.mem.records, r.mem.lsn)
            && (forall x :: x in r.mem.records <==> x in d.log && x.lsn <= r.mem.lsn)
            && !N.Accepts(r.auth, now) && !N.HasAuthority(r.auth, now)
            && Recoverable(r.disk) && r.disk.log == r.mem.records
  {
    CommittedIsGapless(d.log, StateOf(d, schema).lsn);
  }

  /** After a crash at any recoverable point, a node that opens has exactly the document and position of the state
      file and the committed records, which form a gapless run that ends there or is empty; its boot counter is
      strictly greater, no mutating write is accepted, and the disk is recoverable again. */
  lemma ReopenAfterCrash(d: Disk, layout: Layout, reach: J.Limits, component: string, uuid: nat, schema: nat, now: nat)
    requires Recoverable(d) && Written(d, layout, reach)
    ensures var r := Reopen(d, layout, component, uuid, schema);
            && (r.Ok? <==> Openable(d, layout))
            && (r.Ok? ==>
                  && (d.state.Some? ==> r.value.mem.doc == d.state.value.doc && r.value.mem.lsn == d.state.value.lsn)
                  && Gapless(r.value.mem.records, r.value.mem.lsn)
                  && (forall x :: x in r.value.mem.records <==> x in d.log && x.lsn <= r.value.mem.lsn)
                  && r.value.auth.incarnation.boot > d.boot
                  && !N.Accepts(r.value.auth, now) && !N.HasAuthority(r.value.auth, now)
                  && Recoverable(r.value.disk) && r.value.disk.log == r.value.mem.records)
  {
    ReopensExactly(d, layout, reach, component, uuid, schema);
    OpenedAfterCrash(d, schema, A.Incarnation(component, uuid, d.boot + 1), now);
  }

  /** A crash anywhere inside an operation loses the operation or keeps it: a node that opens again has the document
      and position saved before the operation or those it saved. */
  lemma CrashKeepsOrLoses(
    d: Disk, before: Disk, after: Disk, layout: Layout, reach: J.Limits, component: string, uuid: nat, schema: nat)
    requires CrashPoint(d, before, after) && before.state.Some? && after.state.Some? && Written(d, layout, reach)
    ensures var r := Reopen(d, layout, component, uuid, schema);
            r.Ok? ==>
              && ( (r.value.mem.doc == before.state.value.doc && r.value.mem.lsn == before.state.value.lsn)
                || (r.value.mem.doc == after.state.value.doc && r.value.mem.lsn == after.state.value.lsn))
              && Gapless(r.value.mem.records, r.value.mem.lsn) && r.value.auth.incarnation.boot == before.boot + 1
  {
    ReopenAfterCrash(d, layout, reach, component, uuid, schema, 0);
  }

  /** A document that was built by accepted writes, and saved, on which no node opens again. */
  lemma AcceptedWritesDoNotReopen(d: Disk, n: nat, layout: Layout, component: string, uuid: nat, schema: nat)
    requires 64 <= n <= 256 && d.state.Some? && d.state.value.doc.fields == Large(n) && d.boot < MAX_U64
    ensures Bounded(d.state.value.doc.fields) && Reopen(d, layout, component, uuid, schema) == Err(IntegrityFailure)
  {
    SavedStateIsRefused(d.state.value, layout, n);
  }

  // ---------------------------------------------------------------- loading

  method LoadRecords(log: seq<Record>, lsn: nat) returns (records: seq<Record>, dropped: bool)
    ensures records == Committed(log, lsn)
    ensures !dropped ==> records == log
  {
    records, dropped := [], false;
    var i := 0;
    while i < |log|
      invariant 0 <= i <= |log|
      invariant records == Committed(log[..i], lsn)
      invariant !dropped ==> records == log[..i]
    {
      assert log[..i + 1][..i] == log[..i];
      if log[i].lsn > lsn {
        dropped := true;
      } else {
        records := records + [log[i]];
      }
      i := i + 1;
    }
    assert log[..i] == log;
  }

  /** One turn of the scan that serves the records after a position. */
  lemma ReadSinceTurn(records: seq<Record>, i: nat, from: nat, limit: nat, entries: seq<Record>)
    requires i < |records| && |entries| <= limit
    ensures var now := entries + ReadSince(records[i..], from, limit - |entries|);
            if records[i].lsn <= from then now == entries + ReadSince(records[i + 1..], from, limit - |entries|)
            else if |entries| == limit then now == entries
            else now == (entries + [records[i]]) + ReadSince(records[i + 1..], from, limit - |entries| - 1)
  {
    assert records[i..][1..] == records[i + 1..];
    if |entries| < limit && records[i].lsn > from {
      var rest := ReadSince(records[i + 1..], from, limit - |entries| - 1);
      assert entries + ([records[i]] + rest) == (entries + [records[i]]) + rest;
    }
    if |entries| == limit && records[i].lsn <= from { ReadNothing(records[i + 1..], from); }
  }

  lemma ReadNothing(records: seq<Record>, from: nat)
    ensures ReadSince(records, from, 0) == []
  {
  }

  /** The scan that serves the records after a position. */
  method CollectSince(records: seq<Record>, from: nat, limit: nat) returns (entries: seq<Record>)
    ensures entries == ReadSince(records, from, limit)
  {
    entries := [];
    var i := 0;
    assert records[0..] == records;
    while i < |records|
      invariant 0 <= i <= |records| && |entries| <= limit
      invariant ReadSince(records, from, limit) == entries + ReadSince(records[i..], from, limit - |entries|)
    {
      ReadSinceTurn(records, i, from, limit, entries);
      if records[i].lsn > from {
        if |entries| >= limit { break; }
        entries := entries + [records[i]];
      }
      i := i + 1;
    }
  }

  /** One turn of the loop that applies a batch. */
  lemma ApplyBatchTurn(mem: Replica, batch: seq<Record>, i: nat, source: A.Incarnation, limit: nat)
    requires i < |batch|
    ensures var one := ApplyOne(mem, batch[i], source, limit);
            ApplyBatch(mem, batch[i..], source, limit) ==
            if one.Err? then (mem, Err(one.code)) else ApplyBatch(one.value, batch[i + 1..], source, limit)
  {
    assert batch[i..][1..] == batch[i + 1..];
  }

  /** A disk that opening passes through: recoverable, with the new boot counter, and the state file as found
      or as saved again at the end. */
  predicate OpeningPoint(x: Disk, d: Disk, after: Disk) {
    Recoverable(x) && x.boot == d.boot + 1 && (x.state == d.state || x.state == after.state)
  }

  ghost function OpeningTrail(d: Disk, after: Disk, dropped: bool): seq<Disk> {
    var identitySaved := d.(boot := d.boot + 1);
    if dropped then [identitySaved, identitySaved.(log := after.log), after] else [identitySaved, after]
  }

  lemma GaplessIsRecoverable(x: Disk, lsn: nat)
    requires Gapless(x.log, lsn) && (if x.state.Some? then x.state.value.lsn <= lsn else x.log == [])
    ensures Recoverable(x)
  {
  }

  /** The two disks that appending a record passes through. */
  lemma AppendedDisks(d: Disk, record: Record, limit: nat, lsn: nat)
    requires Gapless(d.log, lsn) && record.lsn == lsn + 1 && d.state.Some? && d.state.value.lsn <= lsn
    ensures Recoverable(d.(log := d.log + [record])) && Recoverable(d.(log := Append(d.log, record, limit)))
    ensures Gapless(Append(d.log, record, limit), lsn + 1)
  {
    AppendGapless(d.log, record, limit, lsn);
    GaplessIsRecoverable(d.(log := d.log + [record]), lsn + 1);
    GaplessIsRecoverable(d.(log := Append(d.log, record, limit)), lsn + 1);
  }

  /** The three disks that opening passes through. */
  lemma OpeningDisks(d: Disk, lsn: nat, after: Disk)
    requires Recoverable(d) && (if d.state.Some? then lsn == d.state.value.lsn else lsn == 0)
    requires after.state.Some? && after.state.value.lsn == lsn && after.log == Committed(d.log, lsn)
    requires after.boot == d.boot + 1
    ensures Gapless(after.log, lsn)
    ensures OpeningPoint(d.(boot := d.boot + 1), d, after) && OpeningPoint(after, d, after)
    ensures OpeningPoint(d.(boot := d.boot + 1, log := after.log), d, after)
  {
    CommittedIsGapless(d.log, lsn);
    GaplessIsRecoverable(after, lsn);
    GaplessIsRecoverable(d.(boot := d.boot + 1, log := after.log), lsn);
  }

  lemma OpeningIsRecoverable(d: Disk, lsn: nat, after: Disk, dropped: bool)
    requires Recoverable(d) && (if d.state.Some? then lsn == d.state.value.lsn else lsn == 0)
    requires after.state.Some? && after.state.value.lsn == lsn && after.log == Committed(d.log, lsn)
    requires after.boot == d.boot + 1
    ensures Gapless(after.log, lsn)
    ensures forall x :: x in OpeningTrail(d, after, dropped) ==> OpeningPoint(x, d, after)
  {
    OpeningDisks(d, lsn, after);
  }

  /** The state file holds the node's lease and its retirement; whether the lease is attested is not kept, and a
      fenced node's lease is on record as fenced. */
  predicate OnRecord(s: SavedState, auth: N.NodeState) {
    && N.AsEvidence(s.lease) == N.AsEvidence(auth.lease) && s.retired == auth.retiredMarker
    && (auth.lifecycle.FencedOff? && s.lease.Some? ==> s.lease.value.state.Fenced?)
  }

  class Node {
    const component: string
    const schema: nat
    const maxLogRecords: nat
    const maxRecordsPerResponse: nat

    var auth: N.NodeState
    var document: Document
    var lsn: nat
    var records: seq<Record>
    var expectedSource: Option<SourceBinding>

    var disk: Disk
    ghost var trail: seq<Disk>

    ghost predicate Valid()
      reads this
    {
      && Gapless(records, lsn) && disk.log == records
      && disk.state.Some? && disk.state.value.lsn <= lsn
      && disk.boot == auth.incarnation.boot && auth.incarnation.component == component
      && OnRecord(disk.state.value, auth)
    }

    ghost function Mem(): Replica
      reads this
    {
      Replica(document, lsn, records)
    }

    /** The state file a save would write now. */
    function Unsaved(): SavedState
      reads this
    {
      SavedState(document, lsn, auth.lease, auth.retiredMarker)
    }

    // -------------------------------------------------------------- durable operations

    method SaveState()
      modifies this`disk, this`trail
      ensures disk == old(disk).(state := Some(Unsaved())) && trail == old(trail) + [disk]
    {
      disk := disk.(state := Some(SavedState(document, lsn, auth.lease, auth.retiredMarker)));
      trail := trail + [disk];
    }

    method AppendToLog(record: Record)
      modifies this`disk, this`trail
      ensures disk == old(disk).(log := old(disk).log + [record]) && trail == old(trail) + [disk]
    {
      disk := disk.(log := disk.log + [record]);
      trail := trail + [disk];
    }

    method ReplaceLog(log: seq<Record>)
      modifies this`disk, this`trail
      ensures disk == old(disk).(log := log) && trail == old(trail) + [disk]
    {
      disk := disk.(log := log);
      trail := trail + [disk];
    }

    // -------------------------------------------------------------- open

    /** A node opened on an existing disk: the identity is saved with the next boot counter, the state file is
        read, uncommitted records are dropped, and the state is saved again. */
    constructor (d: Disk, s: SavedState, component: string, uuid: nat, schema: nat, maxLogRecords: nat,
                 maxRecordsPerResponse: nat)
      requires Recoverable(d) && s.lsn == StateOf(d, schema).lsn
      ensures Valid() && expectedSource.None?
      ensures this.component == component && this.schema == schema
      ensures this.maxLogRecords == maxLogRecords && this.maxRecordsPerResponse == maxRecordsPerResponse
      ensures Opened(auth, Mem(), disk) == OpenedFrom(d, s, A.Incarnation(component, uuid, d.boot + 1))
      ensures forall x :: x in trail ==> OpeningPoint(x, d, disk)
    {
      this.component, this.schema := component, schema;
      this.maxLogRecords, this.maxRecordsPerResponse := maxLogRecords, maxRecordsPerResponse;
      expectedSource := None;
      var lease := if s.lease.Some? then Some(s.lease.value.(attested := false)) else None;
      var loaded, dropped := LoadRecords(d.log, s.lsn);
      auth := N.NodeState(A.Incarnation(component, uuid, d.boot + 1), if s.retired then N.Retired else N.Recovering,
                          lease, false, s.retired, 0);
      document, lsn, records := s.doc, s.lsn, loaded;
      var after := Disk(d.boot + 1, Some(s.(lease := lease)), loaded);
      disk := after;
      trail := OpeningTrail(d, after, dropped);
      OpeningIsRecoverable(d, s.lsn, after, dropped);
    }

    // -------------------------------------------------------------- the write log

    method CompactRecords()
      requires disk.log == records
      modifies this`disk, this`trail, this`records
      ensures records == Compact(old(records), maxLogRecords) && disk == old(disk).(log := records)
      ensures trail == old(trail) + [disk]
    {
      var keep := if maxLogRecords / 2 == 0 then 1 else maxLogRecords / 2;
      var start := if |records| > keep then |records| - keep else 0;
      var retained := [];
      var i := start;
      while i < |records|
        invariant start <= i <= |records| && records == old(records) && disk == old(disk) && trail == old(trail)
        invariant retained == records[start..i]
      {
        retained := retained + [records[i]];
        i := i + 1;
      }
      assert retained == records[start..];
      ReplaceLog(retained);
      records := retained;
    }

    method AppendRecordEntry(record: Record)
      requires lsn > 0 && Gapless(records, lsn - 1) && record.lsn == lsn && disk.log == records
      requires disk.state.Some? && disk.state.value.lsn <= lsn - 1
      modifies this`disk, this`trail, this`records
      ensures records == Append(old(records), record, maxLogRecords) && disk == old(disk).(log := records)
      ensures Gapless(records, lsn)
      ensures |trail| >= |old(trail)| && trail[..|old(trail)|] == old(trail)
      ensures forall i :: |old(trail)| <= i < |trail| ==>
                Recoverable(trail[i]) && trail[i].boot == old(disk).boot && trail[i].state == old(disk).state
    {
      AppendedDisks(disk, record, maxLogRecords, lsn - 1);
      AppendToLog(record);
      records := records + [record];
      if |records| > maxLogRecords { CompactRecords(); }
    }

    /** A local write: all of it or none of it, at every crash point. */
    method ApplyWrite(key: Text, value: Text, epoch: nat, generation: nat,
                      origin: A.Incarnation) returns (status: Status)
      requires Valid()
      modifies this`disk, this`trail, this`records, this`document, this`lsn
      ensures Valid()
      ensures var w := Write(old(Mem()), key, value, epoch, generation, origin, maxLogRecords);
              if w.Err? then status == Err(w.code) && Mem() == old(Mem()) && disk == old(disk) && trail == old(trail)
              else status.Ok? && Mem() == w.value && disk.state == Some(Unsaved())
      ensures |trail| >= |old(trail)| && CrashPoints(trail, |old(trail)|, old(disk), disk)
    {
      if lsn >= MAX_U64 { return Err(BoundsExceeded); }
      var put := Put(document.fields, key, value);
      if put.Err? { return Err(put.code); }
      document := document.(fields := put.value);
      lsn := lsn + 1;
      AppendRecordEntry(Record(lsn, key, value, epoch, generation, origin));
      SaveState();
      status := SUCCESS;
    }

    /** A write request: refused without effect unless the claim is exactly this node's live authority. */
    method WriteRequest(claim: A.Claim, key: Text, value: Text, now: nat) returns (status: Status)
      requires Valid()
      modifies this`disk, this`trail, this`records, this`document, this`lsn
      ensures Valid()
      ensures status.Ok? ==>
                N.Accepts(auth, now) && claim.incarnation == auth.incarnation && claim.token == auth.lease.value.token
      ensures status.Err? ==> Mem() == old(Mem()) && disk == old(disk)
      ensures status.Ok? ==>
                Write(old(Mem()), key, value, auth.lease.value.epoch, auth.lease.value.generation,
                      auth.incarnation, maxLogRecords) == Ok(Mem())
    {
      var allowed := N.RequireAuthority(auth, claim, A.Mutating, now);
      if allowed.Err? { return allowed; }
      if key == [] { return Err(InvalidArgument); }
      status := ApplyWrite(key, value, auth.lease.value.epoch, auth.lease.value.generation, auth.incarnation);
    }

    // -------------------------------------------------------------- replication

    method TakeSnapshot() returns (r: Result<Snapshot>)
      requires Valid()
      modifies this`disk, this`trail
      ensures Valid() && r.Ok? == (!auth.lifecycle.Retired? && auth.lease.Some?)
      ensures r.Ok? ==> r.value == Snapshot(lsn, document) && disk.state == Some(Unsaved())
      ensures r.Err? ==> disk == old(disk)
      ensures |trail| >= |old(trail)| && CrashPoints(trail, |old(trail)|, old(disk), disk)
    {
      if auth.lifecycle.Retired? || auth.lease.None? { return Err(NotAuthoritative); }
      SaveState();
      r := Ok(Snapshot(lsn, document));
    }

    /** Installing a snapshot replaces the document and position and empties the log; a crash before the state
        file is replaced falls back to the old document with an empty log. */
    method InstallSnapshot(handoff: nat, snapshot: Snapshot) returns (status: Status)
      requires Valid()
      modifies this`disk, this`trail, this`records, this`document, this`lsn
      ensures Valid()
      ensures status.Ok? == (expectedSource.Some? && expectedSource.value.handoff == handoff &&
                             snapshot.doc.schema == expectedSource.value.schema)
      ensures status.Ok? ==> Mem() == Install(snapshot) && disk.state == Some(Unsaved())
      ensures status.Err? ==> Mem() == old(Mem()) && disk == old(disk)
      ensures |trail| >= |old(trail)| && CrashPoints(trail, |old(trail)|, old(disk), disk)
    {
      if expectedSource.None? || expectedSource.value.handoff != handoff { return Err(IllegalTransition); }
      if snapshot.doc.schema != expectedSource.value.schema { return Err(MigrationFailure); }
      document, lsn, records := snapshot.doc, snapshot.lsn, [];
      ReplaceLog([]);
      SaveState();
      status := SUCCESS;
    }

    method ReadRecordsSince(from: nat, max: nat) returns (entries: seq<Record>, truncated: bool)
      ensures entries == ReadSince(records, from, if max < maxRecordsPerResponse then max else maxRecordsPerResponse)
      ensures truncated <==> (from != 0 && records != [] && records[0].lsn > from + 1)
    {
      var limit := if max < maxRecordsPerResponse then max else maxRecordsPerResponse;
      var oldest := if records == [] then lsn else records[0].lsn;
      truncated := from != 0 && from < oldest && records != [] && records[0].lsn > from + 1;
      entries := CollectSince(records, from, limit);
    }

    method ApplyRecord(entry: Record, source: A.Incarnation) returns (status: Status)
      requires Valid()
      modifies this`disk, this`trail, this`records, this`document, this`lsn
      ensures Valid() && disk.state == old(disk.state) && disk.boot == old(disk.boot)
      ensures var one := ApplyOne(old(Mem()), entry, source, maxLogRecords);
              if one.Err? then status == Err(one.code) && Mem() == old(Mem())
                && disk == old(disk) && trail == old(trail)
              else status.Ok? && Mem() == one.value
      ensures |trail| >= |old(trail)| && trail[..|old(trail)|] == old(trail)
      ensures CrashPoints(trail, |old(trail)|, old(disk), old(disk))
    {
      if entry.origin != source { return Err(StaleIncarnation); }
      if lsn >= MAX_U64 || entry.lsn != lsn + 1 { return Err(NotReady); }
      var put := Put(document.fields, entry.key, entry.value);
      if put.Err? { return Err(put.code); }
      document := document.(fields := put.value);
      lsn := entry.lsn;
      AppendRecordEntry(entry);
      status := SUCCESS;
    }

    /** The records of a batch, in order, up to the first refused one; nothing is saved. */
    method ApplyEach(batch: seq<Record>, source: A.Incarnation) returns (status: Status)
      requires Valid()
      modifies this`disk, this`trail, this`records, this`document, this`lsn
      ensures Valid() && disk.state == old(disk.state) && disk.boot == old(disk.boot)
      ensures (Mem(), status) == ApplyBatch(old(Mem()), batch, source, maxLogRecords)
      ensures |trail| >= |old(trail)| && CrashPoints(trail, |old(trail)|, old(disk), old(disk))
    {
      var i := 0;
      assert batch[0..] == batch;
      while i < |batch|
        invariant 0 <= i <= |batch| && Valid() && disk.state == old(disk.state) && disk.boot == old(disk.boot)
        invariant ApplyBatch(old(Mem()), batch, source, maxLogRecords) ==
                  ApplyBatch(Mem(), batch[i..], source, maxLogRecords)
        invariant |trail| >= |old(trail)| && CrashPoints(trail, |old(trail)|, old(disk), old(disk))
      {
        ApplyBatchTurn(Mem(), batch, i, source, maxLogRecords);
        status := ApplyRecord(batch[i], source);
        if status.Err? { return; }
        i := i + 1;
      }
      status := SUCCESS;
    }

    /** Applies a replicated batch record by record; a refused record stops the batch and leaves what was
        applied before it unsaved. */
    method ApplyRecords(handoff: nat, presented: SourceBinding, batch: seq<Record>) returns (status: Status)
      requires Valid()
      modifies this`disk, this`trail, this`records, this`document, this`lsn
      ensures Valid()
      ensures var refusal := BatchRefusal(expectedSource, handoff, presented, |batch|, maxRecordsPerResponse);
              if refusal.Some? then status == Err(refusal.value) && Mem() == old(Mem()) && disk == old(disk)
              else
                && (Mem(), status) == ApplyBatch(old(Mem()), batch, expectedSource.value.source, maxLogRecords)
                && disk.state == if status.Ok? then Some(Unsaved()) else old(disk.state)
      ensures |trail| >= |old(trail)| && CrashPoints(trail, |old(trail)|, old(disk), disk)
    {
      if expectedSource.None? || expectedSource.value.handoff != handoff { return Err(IllegalTransition); }
      if !Matches(presented, expectedSource.value) { return Err(StaleGeneration); }
      if |batch| > maxRecordsPerResponse { return Err(BoundsExceeded); }
      status := ApplyEach(batch, expectedSource.value.source);
      if status.Ok? { SaveState(); }
    }

    // -------------------------------------------------------------- authority

    method Fence(target: A.Incarnation, fence: nat) returns (status: Status)
      requires Valid()
      modifies this`auth, this`disk, this`trail
      ensures Valid() && (auth, status) == N.FenceNode(old(auth), target, fence)
      ensures disk == old(disk) || disk.state == Some(Unsaved())
      ensures status.Err? ==> disk == old(disk)
      ensures status.Ok? ==> auth.lifecycle.FencedOff? && OnRecord(disk.state.value, auth)
      ensures |trail| >= |old(trail)| && CrashPoints(trail, |old(trail)|, old(disk), disk)
    {
      if fence == 0 { return Err(InvalidArgument); }
      if target != auth.incarnation { return Err(StaleIncarnation); }
      if auth.lifecycle.FencedOff? && auth.lastFence == fence { return SUCCESS; }
      auth := auth.(lifecycle := N.FencedOff, confirmed := false, lastFence := fence);
      if auth.lease.Some? {
        auth := auth.(lease := Some(auth.lease.value.(state := A.Fenced, attested := false)));
      }
      SaveState();
      status := SUCCESS;
    }

    method GrantAuthority(shard: string, epoch: nat, generation: nat, token: nat, mode: A.Mode, ttl: nat,
                          now: nat) returns (status: Status)
      requires Valid()
      modifies this`auth, this`disk, this`trail
      ensures Valid() && (auth, status) == N.GrantNode(old(auth), shard, epoch, generation, token, mode, ttl, now)
      ensures if status.Ok? then disk.state == Some(Unsaved()) else disk == old(disk)
      ensures |trail| >= |old(trail)| && CrashPoints(trail, |old(trail)|, old(disk), disk)
    {
      if auth.lifecycle.Retired? { return Err(NotAuthoritative); }
      if epoch == 0 || generation == 0 { return Err(InvalidArgument); }
      if token == 0 || mode.NoAuthority? { return Err(Malformed); }
      if ttl == 0 || ttl > A.MAX_LEASE_TTL_MS { return Err(BoundsExceeded); }
      var lease := A.Lease(0, shard, auth.incarnation, epoch, generation, token, mode,
                           A.Active, now, AddU64(now, ttl), true);
      auth := auth.(lease := Some(lease), confirmed := true, lifecycle := N.Serving);
      SaveState();
      status := SUCCESS;
    }

    method Reattest(token: nat, now: nat) returns (status: Status)
      requires Valid()
      modifies this`auth
      ensures Valid() && (auth, status) == N.ReattestNode(old(auth), token, now)
    {
      if auth.lease.None? || auth.lease.value.token != token { return Err(StaleAuthority); }
      if now >= auth.lease.value.expiresAt { return Err(StaleAuthority); }
      auth := auth.(lease := Some(auth.lease.value.(attested := true)), confirmed := true);
      status := SUCCESS;
    }

    method Retire()
      requires Valid()
      modifies this`auth, this`disk, this`trail
      ensures Valid() && auth == N.RetireNode(old(auth)) && disk.state == Some(Unsaved())
      ensures |trail| >= |old(trail)| && CrashPoints(trail, |old(trail)|, old(disk), disk)
    {
      auth := auth.(lifecycle := N.Retired, retiredMarker := true, confirmed := false);
      if auth.lease.Some? {
        auth := auth.(lease := Some(auth.lease.value.(state := A.Revoked, attested := false)));
      }
      SaveState();
    }

    /** A valid node that stops at this point and opens again comes back as its next incarnation: the same restart
        as the one the single-writer model takes. */
    lemma RestartIsReopening(layout: Layout, uuid: nat)
      requires Valid() && Reopen(disk, layout, component, uuid, schema).Ok?
      ensures Reopen(disk, layout, component, uuid, schema).value.auth == N.Reopened(auth, uuid)
    {
    }
  }

  /** Opens a node, given what loading each file yields: refused when the boot counter is exhausted or a file
      cannot be loaded. A refusal after the identity was saved leaves the greater boot counter behind and
      nothing else. */
  method OpenLoaded(
    d: Disk, fields: Result<Fields>, texts: Result<seq<Text>>, component: string, uuid: nat, schema: nat,
    maxLogRecords: nat, maxRecordsPerResponse: nat) returns (r: Result<Node>, left: Disk)
    requires Recoverable(d)
    ensures var expected := ReopenWith(d, fields, texts, component, uuid, schema);
            if expected.Err? then r == Err(expected.code) && left == d.(boot := left.boot) && left.boot >= d.boot
            else r.Ok? && fresh(r.value) && r.value.Valid() && left == r.value.disk
                 && Opened(r.value.auth, r.value.Mem(), r.value.disk) == expected.value
    ensures d.boot < MAX_U64 ==> left.boot == d.boot + 1
  {
    if d.boot >= MAX_U64 { return Err(BoundsExceeded), d; }
    left := d.(boot := d.boot + 1);
    var s := StateOf(d, schema);
    if fields.Err? { return Err(fields.code), left; }
    s := s.(doc := s.doc.(fields := fields.value));
    if texts.Err? { return Err(texts.code), left; }
    var node := new Node(d, s, component, uuid, schema, maxLogRecords, maxRecordsPerResponse);
    return Ok(node), node.disk;
  }

  /** Opens a node on a disk. */
  method OpenNode(
    d: Disk, layout: Layout, component: string, uuid: nat, schema: nat, maxLogRecords: nat,
    maxRecordsPerResponse: nat) returns (r: Result<Node>, left: Disk)
    requires Recoverable(d)
    ensures var expected := Reopen(d, layout, component, uuid, schema);
            if expected.Err? then r == Err(expected.code) && left == d.(boot := left.boot) && left.boot >= d.boot
            else r.Ok? && fresh(r.value) && r.value.Valid() && left == r.value.disk
                 && Opened(r.value.auth, r.value.Mem(), r.value.disk) == expected.value
    ensures d.boot < MAX_U64 ==> left.boot == d.boot + 1
  {
    var fields, texts := FieldsOf(d, layout), LoadedTexts(d.log, layout);
    r, left := OpenLoaded(d, fields, texts, component, uuid, schema, maxLogRecords, maxRecordsPerResponse);
  }
}
